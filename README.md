# Banking microservices: a verified model of the per-service state logic

This project models the state logic of four cooperating Spring services in a small
banking demo. Each service keeps a keyed record store, and each REST handler checks its
inputs, fetches a record, changes it and writes it back:

- the **operation service** deposits, withdraws and transfers money on accounts and
  records each movement as a Credit or Debit transaction;
- the **user service** registers and updates users and keeps each user's list of
  account numbers;
- the **account service** creates, updates and closes accounts and reports their
  transactions. Create and close first ask the user service to add or remove the
  number, and write locally only when it answers SUCCESS;
- the **miscellaneous service** orders and blocks cheque books;
- two validators, `AccountUtil.isAccountValid` and `UserUtil.isUserValid`.

Every handler except `createNewAccount` runs under a Hystrix command. When the handler
throws, the caller receives a fallback sentinel instead (`ERROR`,
`USER_ID_DOES_NOT_EXIST`, the combined strings `USER_ID_ALREADY_EXISTS + " OR " +
REQUIRED_FIELDS_NULL` of register and `USER_ID_DOES_NOT_EXIST + " OR " +
REQUIRED_FIELDS_NULL` of update, an empty list or null).

## Layout

| file | module | contents |
|---|---|---|
| model.dfy | Model | `Account`, `Transaction` and `User` records; the key-indexed stores; `Reply` (a value, or the exception the handler throws); the constants |
| strings.dfy | Strings | `StringUtils.isBlank`/`isNotBlank` over `Character.isWhitespace` |
| hystrix.dfy | Hystrix | `Run(primary, fallback)`: the value a wrapped handler hands back |
| lists.dfy | Lists | `ArrayList.remove(Object)` as `RemoveFirst`, and its list facts |
| account_util.dfy, user_util.dfy | AccountUtil, UserUtil | the validators |
| operation_service.dfy | OperationServices | the ledger, the total held across accounts, the findings below |
| user_service.dfy | UserServices | registration, update and the account lists |
| account_service.dfy | AccountServices | the account lifecycle, the peer call, cross-service consistency |
| miscellaneous_service.dfy | MiscellaneousServices | the cheque-book flag |

Each service is a `class` whose field is its store (a `map` keyed by record ID). Each
handler is a method that changes the store step by step, as the Java does. Each method
is proved equal to a pure function of the old store. The pure functions carry the
if-and-only-if success conditions and the new state. Lemmas about them state the
properties: totals, round trips, idempotence, failure atomicity and cross-service
consistency.

Modelling choices:

- **JsonDB.** `findById` returns a fresh copy of the stored object, and `upsert` writes
  a copy back. Records are therefore values (`datatype`s) read from and written into
  the map.
- **Failures.** A handler's outcome is `Reply<T>`: either `Ok(value)` or
  `Err(failure)`. A failure is `Runtime(message)` for a `RuntimeException` (with `""`
  when it has no message), `NumberFormat` for a path variable that `Long.parseLong`
  rejects, or `NullPointer` for unboxing a null balance. A path variable is
  `Option<int>`, where `None` is text that does not parse.
- **Nulls.**
  - `Account.balance` is `Option<int>`.
  - `User.userAccounts` is `Option<seq<int>>`, because `getAccountsList` tells a null
    list from an empty one.
  - A null transaction list is the empty list, because every handler treats the two
    alike.
  - A null string is the empty string, because `isNotBlank` treats the two alike.
- **The peer call.** The account service holds a reference to the `UserService` object
  it calls. A `Delivery` argument says how the HTTP call went:
  - `Delivered`: the peer ran and its reply came back;
  - `RequestLost`: the call threw before the peer ran;
  - `ReplyLost`: the peer ran, then the call threw.
  A lost request or reply surfaces in the account service as `Err(Feign)`.
- **Consistency.** `AccountServices.Consistent` is the invariant the two services are
  meant to keep:
  - every active account is listed under its owner;
  - every listed number is an account of that owner;
  - no list repeats a number.
- **Shared store.** The account service and the operation service open the same
  collection. At the level of the pure functions they share one `AccountStore`, as
  `ClosedAccountRejectsLedger` uses.

## Model

The table lists the members whose contracts make a promise. The helpers that carry no
contract of their own are modelled from these source lines:

- `Strings.IsWhitespace`, `Strings.IsBlank` and `Strings.IsNotBlank` are
  `Character.isWhitespace` and `StringUtils.isBlank`/`isNotBlank`, as called at
  AccountUtil.java:24 and UserUtil.java:22-23.
- `Model.Upsert` is JsonDB's `insert`/`upsert` of a record under its own key, as at
  AccountService.java:87, 123 and 161.
- `UserServices.ListOf` is the default of a null account list to an empty one, as at
  UserService.java:178-183 and 224-229.
- `Lists.IndexOf` locates the first occurrence that `ArrayList.remove(Object)` deletes.
- `Model.IsOpen` is the `nonNull(account) && account.isActive()` test, and
  `OperationServices.Total` the money held across accounts.

| member | source | states |
|---|---|---|
| Model.SentinelsDiffer | user-services/src/main/java/com/nagp/microservices/userservices/util/UserConstants.java:11-17 | The success string differs from ERROR and from USER_ID_DOES_NOT_EXIST, so a caller behind a wrapper with either fallback can tell success from failure. |
| Model.CombinedSentinelsDiffer | user-services/src/main/java/com/nagp/microservices/userservices/controllers/UserService.java:252-264 | The success string differs from both combined fallback strings of register and update ("... OR ..."). |
| Strings.NotBlankHasVisibleChar | user-services/src/main/java/com/nagp/microservices/userservices/util/UserUtil.java:22-23 | Its first clause unfolds `isNotBlank` and is documentation; the property is that a non-blank string is non-empty. |
| Strings.BlankExamples | user-services/src/main/java/com/nagp/microservices/userservices/util/UserUtil.java:22-23 | The empty string and `" \t\n"` are blank; `" a "` and a lone no-break space (U+00A0, which Java does not call whitespace) are not. |
| Hystrix.Run | operation-services/src/main/java/com/nagp/microservices/operationservices/controllers/OperationService.java:243-271 | A wrapped handler returns the primary's value when it succeeds and the fallback's sentinel when it throws. |
| Hystrix.FailureBecomesSentinel | operation-services/src/main/java/com/nagp/microservices/operationservices/controllers/OperationService.java:243-245 | Documentation only: restates the failure clause of `Run` for reference; the property itself is `Run`'s contract. |
| Hystrix.SentinelDetectsFailure | user-services/src/main/java/com/nagp/microservices/userservices/controllers/UserService.java:284-297 | When the primary never returns the sentinel itself, the caller sees the sentinel if and only if the primary failed. |
| Hystrix.SentinelAmbiguous | user-services/src/main/java/com/nagp/microservices/userservices/controllers/UserService.java:272-275 | A success whose payload equals the sentinel is indistinguishable from a failure. |
| Lists.RemoveFirst | user-services/src/main/java/com/nagp/microservices/userservices/controllers/UserService.java:231-233 | `List.remove(Object)` guarded by `contains`: an absent number leaves the list as it was; otherwise exactly the first occurrence is cut out and the rest keep their order. |
| Lists.RemoveFirstCount | user-services/src/main/java/com/nagp/microservices/userservices/controllers/UserService.java:231-233 | Removal takes exactly one copy of the number out of the list's multiset (none when it is absent). |
| Lists.RemoveFirstOfDistinct | user-services/src/main/java/com/nagp/microservices/userservices/controllers/UserService.java:231-233 | On a list without repeats, removal deletes the number completely, keeps every other number and keeps the list repeat-free. |
| Lists.AppendFresh | user-services/src/main/java/com/nagp/microservices/userservices/controllers/UserService.java:185 | Appending a number not yet present keeps a list repeat-free. |
| AccountUtil.IsAccountValid | account-services/src/main/java/com/nagp/microservices/accountservices/util/AccountUtil.java:23-25 | A valid account is non-null, has a non-zero number and a non-empty owner ID. |
| AccountUtil.NullAccountInvalid | account-services/src/main/java/com/nagp/microservices/accountservices/util/AccountUtil.java:24 | A null account is invalid. |
| AccountUtil.ZeroNumberInvalid | account-services/src/main/java/com/nagp/microservices/accountservices/util/AccountUtil.java:24 | Account number 0 is invalid. |
| AccountUtil.BlankOwnerInvalid | account-services/src/main/java/com/nagp/microservices/accountservices/util/AccountUtil.java:24 | An empty, null or whitespace-only owner ID is invalid. |
| AccountUtil.ValidityIgnoresOtherFields | account-services/src/main/java/com/nagp/microservices/accountservices/util/AccountUtil.java:24 | Two accounts with the same number and owner are equally valid, whatever their branch, flags, balance and transactions. |
| AccountUtil.ValidWhenAllTestsPass | account-services/src/main/java/com/nagp/microservices/accountservices/util/AccountUtil.java:24 | A non-zero number with an owner ID having a non-whitespace character makes an account valid (the converse of the three rejections). |
| UserUtil.IsUserValid | user-services/src/main/java/com/nagp/microservices/userservices/util/UserUtil.java:21-24 | A valid user has a non-empty ID, address and e-mail. |
| UserUtil.BlankIDInvalid | user-services/src/main/java/com/nagp/microservices/userservices/util/UserUtil.java:22 | A blank user ID makes a user invalid. |
| UserUtil.BlankAddressInvalid | user-services/src/main/java/com/nagp/microservices/userservices/util/UserUtil.java:22 | A blank address makes a user invalid. |
| UserUtil.BlankEmailInvalid | user-services/src/main/java/com/nagp/microservices/userservices/util/UserUtil.java:23 | A blank e-mail makes a user invalid. |
| UserUtil.ValidityIsConjunction | user-services/src/main/java/com/nagp/microservices/userservices/util/UserUtil.java:22-23 | Its first clause unfolds the validator and is documentation; the property is the second clause, that the account list plays no part in validity. |
| OperationServices.Post | operation-services/src/main/java/com/nagp/microservices/operationservices/controllers/OperationService.java:79-92 | A posting moves the balance by exactly the delta, appends exactly one entry at the end of the history, and keeps every other field. |
| OperationServices.Withdraw | operation-services/src/main/java/com/nagp/microservices/operationservices/controllers/OperationService.java:61-109 | Succeeds if and only if both numbers parse and are non-zero, the account is present and active, and its balance is strictly greater than the amount; then only that record changes: balance minus amount and one Debit entry of the amount. Every failure leaves the store unchanged. |
| OperationServices.Deposit | operation-services/src/main/java/com/nagp/microservices/operationservices/controllers/OperationService.java:120-161 | Succeeds if and only if both numbers parse and are non-zero and the account is present and active with a balance; then only that record changes: balance plus amount and one Credit entry. Every failure leaves the store unchanged. |
| OperationServices.Transfer | operation-services/src/main/java/com/nagp/microservices/operationservices/controllers/OperationService.java:173-234 | Succeeds if and only if all three numbers parse and are non-zero, both accounts are present and active and `from` holds at least the amount; then `from` is debited, and `to` is credited (read before the first write). Every failure leaves the store unchanged. |
| OperationServices.DepositRaisesTotal | operation-services/src/main/java/com/nagp/microservices/operationservices/controllers/OperationService.java:134-151 | A successful deposit raises the money held across all accounts by exactly the amount. |
| OperationServices.WithdrawLowersTotal | operation-services/src/main/java/com/nagp/microservices/operationservices/controllers/OperationService.java:75-99 | A successful withdrawal lowers the money held across all accounts by exactly the amount. |
| OperationServices.TransferConservesTotal | operation-services/src/main/java/com/nagp/microservices/operationservices/controllers/OperationService.java:192-224 | Between distinct accounts a successful transfer conserves the total and moves exactly the amount from `from` to `to`. |
| OperationServices.WithdrawRejectsWholeBalance | operation-services/src/main/java/com/nagp/microservices/operationservices/controllers/OperationService.java:78 | Withdrawing the whole balance is refused with "Insufficient Balance." and the store is unchanged. |
| OperationServices.TransferAcceptsWholeBalance | operation-services/src/main/java/com/nagp/microservices/operationservices/controllers/OperationService.java:190-191 | Transferring the whole balance to another open account succeeds and leaves `from` at zero. |
| OperationServices.BoundariesDiffer | operation-services/src/main/java/com/nagp/microservices/operationservices/controllers/OperationService.java:190-191 | Some store and amount make withdraw (strict `>`, line 78) fail while the transfer of the same amount (`>=`) succeeds. |
| OperationServices.NegativeDepositAccepted | operation-services/src/main/java/com/nagp/microservices/operationservices/controllers/OperationService.java:128 | Only zero is rejected: a negative deposit succeeds and lowers the balance. |
| OperationServices.DepositTwiceCountsTwice | operation-services/src/main/java/com/nagp/microservices/operationservices/controllers/OperationService.java:134-151 | Deposit is not idempotent: a repeated deposit succeeds again, adds the amount twice and records two entries. |
| OperationServices.WithdrawLeavesClosedAccounts | operation-services/src/main/java/com/nagp/microservices/operationservices/controllers/OperationService.java:75 | A withdrawal never changes a record that is inactive. |
| OperationServices.DepositLeavesClosedAccounts | operation-services/src/main/java/com/nagp/microservices/operationservices/controllers/OperationService.java:134 | A deposit never changes a record that is inactive. |
| OperationServices.TransferLeavesClosedAccounts | operation-services/src/main/java/com/nagp/microservices/operationservices/controllers/OperationService.java:190-191 | A transfer never changes a record that is inactive. |
| OperationServices.WrappedFailureIsError | operation-services/src/main/java/com/nagp/microservices/operationservices/controllers/OperationService.java:243-271 | Under the wrapper each ledger call returns ERROR if and only if the primary failed, and then the store is unchanged. |
| OperationServices.SelfTransferMintsMoney | operation-services/src/main/java/com/nagp/microservices/operationservices/controllers/OperationService.java:185-224 | As written, a transfer from an account to itself succeeds, leaves the balance raised by the amount with only a Credit recorded, and raises the total by the amount. |
| OperationServices.NegativeTransferOverdraws | operation-services/src/main/java/com/nagp/microservices/operationservices/controllers/OperationService.java:182-207 | As written, a negative amount passes the guard and the transfer drives `to` below zero from non-negative balances. |
| OperationServices.CheckedTransfer | operation-services/src/main/java/com/nagp/microservices/operationservices/controllers/OperationService.java:182-191 | The corrected transfer refuses equal account numbers and non-positive amounts, changing nothing; every other request, including the parse failures, gets exactly what Transfer gives. |
| OperationServices.CheckedTransferConserves | operation-services/src/main/java/com/nagp/microservices/operationservices/controllers/OperationService.java:192-224 | The corrected transfer conserves the total held in every case. |
| OperationServices.CheckedTransferKeepsBalancesNonNegative | operation-services/src/main/java/com/nagp/microservices/operationservices/controllers/OperationService.java:190-207 | The corrected transfer keeps every balance non-negative when all were. |
| OperationServices.NegativeDepositOverdraws | operation-services/src/main/java/com/nagp/microservices/operationservices/controllers/OperationService.java:128-135 | As written: a deposit of -50 on an open account with balance 0 succeeds and leaves the balance at -50. |
| OperationServices.CheckedDeposit | operation-services/src/main/java/com/nagp/microservices/operationservices/controllers/OperationService.java:128 | The corrected deposit refuses a non-positive amount, changing nothing; every other request gets exactly what Deposit gives. |
| OperationServices.CheckedDepositKeepsBalancesNonNegative | operation-services/src/main/java/com/nagp/microservices/operationservices/controllers/OperationService.java:128-135 | The corrected deposit keeps every balance non-negative when all were. |
| OperationServices.OperationService.constructor | operation-services/src/main/java/com/nagp/microservices/operationservices/controllers/OperationService.java:44-50 | The service starts over the collection already in the store. |
| OperationServices.OperationService.WithdrawMoney | operation-services/src/main/java/com/nagp/microservices/operationservices/controllers/OperationService.java:61-109 | The in-place handler (copy fetched, balance set, entry appended, upserted) returns what Withdraw returns and leaves the store Withdraw describes. |
| OperationServices.OperationService.DepositMoney | operation-services/src/main/java/com/nagp/microservices/operationservices/controllers/OperationService.java:120-161 | The in-place handler agrees with Deposit on reply and new store. |
| OperationServices.OperationService.TransferMoney | operation-services/src/main/java/com/nagp/microservices/operationservices/controllers/OperationService.java:173-234 | Two copies fetched, two sequential upserts; agrees with Transfer on reply and new store. |
| OperationServices.OperationService.WithdrawMoneyCommand | operation-services/src/main/java/com/nagp/microservices/operationservices/controllers/OperationService.java:243-245 | Returns Withdraw's reply through the wrapper (ERROR on failure); unless it returns SUCCESS, the store is unchanged. |
| OperationServices.OperationService.DepositMoneyCommand | operation-services/src/main/java/com/nagp/microservices/operationservices/controllers/OperationService.java:254-256 | Returns Deposit's reply through the wrapper; unless it returns SUCCESS, the store is unchanged. |
| OperationServices.OperationService.TransferMoneyCommand | operation-services/src/main/java/com/nagp/microservices/operationservices/controllers/OperationService.java:268-271 | Returns Transfer's reply through the wrapper; unless it returns SUCCESS, the store is unchanged. |
| UserServices.RegisterUser | user-services/src/main/java/com/nagp/microservices/userservices/controllers/UserService.java:64-86 | Succeeds if and only if the user is valid and the ID is not yet stored; then the user is inserted under its ID; otherwise the store is unchanged. |
| UserServices.UpdateUser | user-services/src/main/java/com/nagp/microservices/userservices/controllers/UserService.java:96-120 | Succeeds if and only if the user is valid and the ID is stored; then the stored record is replaced wholesale; otherwise the store is unchanged. |
| UserServices.AccountsOf | user-services/src/main/java/com/nagp/microservices/userservices/controllers/UserService.java:130-150 | Succeeds if and only if the ID is not blank, the user exists and its list is not null; then it returns the stored list unchanged. |
| UserServices.AddAccountTo | user-services/src/main/java/com/nagp/microservices/userservices/controllers/UserService.java:161-196 | Succeeds if and only if the number parses, is non-zero and the user exists; then only that user's list changes, by appending the number at the end (a null list counts as empty); otherwise the store is unchanged. |
| UserServices.RemoveAccountFrom | user-services/src/main/java/com/nagp/microservices/userservices/controllers/UserService.java:207-244 | Succeeds if and only if the number parses, is non-zero and the user exists; then only that user's list changes, to the list with the first occurrence removed (a null list becomes empty); otherwise the store is unchanged. |
| UserServices.WrappedAddAccountTo | user-services/src/main/java/com/nagp/microservices/userservices/controllers/UserService.java:284-286 | Under the wrapper addAccount returns SUCCESS exactly when the primary succeeds; otherwise USER_ID_DOES_NOT_EXIST and the store is unchanged. |
| UserServices.WrappedRemoveAccountFrom | user-services/src/main/java/com/nagp/microservices/userservices/controllers/UserService.java:295-297 | Under the wrapper removeAccount returns SUCCESS exactly when the primary succeeds; otherwise USER_ID_DOES_NOT_EXIST and the store is unchanged. |
| UserServices.DuplicateRegistrationFails | user-services/src/main/java/com/nagp/microservices/userservices/controllers/UserService.java:71-81 | Registering a taken ID fails and the stored record is untouched. |
| UserServices.AddTwiceListsTwice | user-services/src/main/java/com/nagp/microservices/userservices/controllers/UserService.java:185 | No duplicate check: adding the same number twice lists it twice, at the end. |
| UserServices.RemoveAbsentStillSucceeds | user-services/src/main/java/com/nagp/microservices/userservices/controllers/UserService.java:231-237 | Removing an unlisted number still returns SUCCESS and keeps the list's contents. |
| UserServices.RemoveTakesOneOccurrence | user-services/src/main/java/com/nagp/microservices/userservices/controllers/UserService.java:231-233 | Removal takes out exactly one occurrence (multiset difference). |
| UserServices.RemoveAppended | user-services/src/main/java/com/nagp/microservices/userservices/controllers/UserService.java:231-233 | Removing a number just appended to a list that lacked it gives back the list. |
| UserServices.AddThenRemoveRestores | user-services/src/main/java/com/nagp/microservices/userservices/controllers/UserService.java:161-244 | addAccount of a fresh number followed by removeAccount of it restores the whole user store. |
| UserServices.AccountsListAfterAdd | user-services/src/main/java/com/nagp/microservices/userservices/controllers/UserService.java:134-141 | After addAccount, getAccountsList returns the old list with the number appended. |
| UserServices.EmptyListAmbiguous | user-services/src/main/java/com/nagp/microservices/userservices/controllers/UserService.java:272-275 | The wrapped getAccountsList returns [] both for an unknown user and for a user with no accounts. |
| UserServices.WrappedRegisterUpdateFailureDetectable | user-services/src/main/java/com/nagp/microservices/userservices/controllers/UserService.java:252-264 | Under the wrapper, register returns its combined fallback string if and only if it failed, and update likewise; a success is never mistaken for a failure. |
| UserServices.UserService.constructor | user-services/src/main/java/com/nagp/microservices/userservices/controllers/UserService.java:48-54 | The service starts over the collection already in the store. |
| UserServices.UserService.RegisterNewCustomer | user-services/src/main/java/com/nagp/microservices/userservices/controllers/UserService.java:64-86 | Agrees with RegisterUser on reply and new store. |
| UserServices.UserService.UpdateCustomerInfo | user-services/src/main/java/com/nagp/microservices/userservices/controllers/UserService.java:96-120 | Agrees with UpdateUser on reply and new store. |
| UserServices.UserService.GetAccountsList | user-services/src/main/java/com/nagp/microservices/userservices/controllers/UserService.java:130-150 | Read-only; returns what AccountsOf returns for the current store. |
| UserServices.UserService.AddAccount | user-services/src/main/java/com/nagp/microservices/userservices/controllers/UserService.java:161-196 | Mutates the fetched copy's list in place and upserts it; agrees with AddAccountTo. |
| UserServices.UserService.RemoveAccount | user-services/src/main/java/com/nagp/microservices/userservices/controllers/UserService.java:207-244 | `contains` then `remove` on the fetched copy's list, then upsert; agrees with RemoveAccountFrom. |
| UserServices.UserService.RegisterNewCustomerCommand | user-services/src/main/java/com/nagp/microservices/userservices/controllers/UserService.java:252-254 | Returns RegisterUser's reply through the wrapper with the "User ID already exists. OR …" sentinel; the store is RegisterUser's. |
| UserServices.UserService.UpdateCustomerInfoCommand | user-services/src/main/java/com/nagp/microservices/userservices/controllers/UserService.java:262-264 | Returns UpdateUser's reply through the wrapper with the "User with ID does not exist. OR …" sentinel; the store is UpdateUser's. |
| UserServices.UserService.GetAccountsListCommand | user-services/src/main/java/com/nagp/microservices/userservices/controllers/UserService.java:272-275 | Returns AccountsOf's list, or [] when it fails. |
| UserServices.UserService.AddAccountCommand | user-services/src/main/java/com/nagp/microservices/userservices/controllers/UserService.java:284-286 | Agrees with WrappedAddAccountTo on reply and new store. |
| UserServices.UserService.RemoveAccountCommand | user-services/src/main/java/com/nagp/microservices/userservices/controllers/UserService.java:295-297 | Agrees with WrappedRemoveAccountFrom on reply and new store. |
| AccountServices.Create | account-services/src/main/java/com/nagp/microservices/accountservices/controllers/AccountService.java:67-98 | Succeeds if and only if the account is valid, its number is new, the call is delivered and the wrapped addAccount replies SUCCESS; then the reply is SUCCESS and the account is inserted. An invalid or taken account fails before any peer call and changes neither store; every failure leaves the account store unchanged. |
| AccountServices.CreatePeerEffect | account-services/src/main/java/com/nagp/microservices/accountservices/controllers/AccountService.java:71-90 | Once the account passes the local checks and the request reaches the user service, the user store is the one addAccount leaves (whatever happens to the reply); otherwise it is unchanged. |
| AccountServices.CreateSucceedsIff | account-services/src/main/java/com/nagp/microservices/accountservices/controllers/AccountService.java:83-93 | In user-store terms: create succeeds if and only if the account is valid, new, the call is delivered and the owner is a known user; then the user store is addAccount's, the number appended to the owner's list. |
| AccountServices.UpdateInfo | account-services/src/main/java/com/nagp/microservices/accountservices/controllers/AccountService.java:108-130 | Succeeds if and only if the input is valid and the stored record is present and active; then the record is replaced wholesale (balance and transactions included); otherwise the store is unchanged. |
| AccountServices.Close | account-services/src/main/java/com/nagp/microservices/accountservices/controllers/AccountService.java:140-176 | Succeeds if and only if the number parses, is non-zero, names an active account, the call is delivered and the wrapped removeAccount replies SUCCESS; then only `active` turns false; every failure leaves the account store unchanged. |
| AccountServices.ClosePeerEffect | account-services/src/main/java/com/nagp/microservices/accountservices/controllers/AccountService.java:147-164 | Once the number passes the local checks and the request reaches the user service, the user store is the one removeAccount leaves; otherwise it is unchanged. |
| AccountServices.CloseSucceedsIff | account-services/src/main/java/com/nagp/microservices/accountservices/controllers/AccountService.java:155-167 | In user-store terms: close succeeds if and only if the number parses, is non-zero, names an active account, the call is delivered and the owner is a known user; then the user store is removeAccount's. |
| AccountServices.TransactionSummary | account-services/src/main/java/com/nagp/microservices/accountservices/controllers/AccountService.java:187-210 | Succeeds if and only if the number parses, is non-zero and names an active account with a non-empty history; then it returns that history. |
| AccountServices.WrappedTransactionSummary | account-services/src/main/java/com/nagp/microservices/accountservices/controllers/AccountService.java:248-250 | Under the wrapper the summary is null exactly when the primary fails, and otherwise the account's non-empty history. |
| AccountServices.CreateIsUnwrapped | account-services/src/main/java/com/nagp/microservices/accountservices/controllers/AccountService.java:66 | Documentation only: create's reply is never the ERROR string, consistent with its having no fallback; it does not by itself show that failures surface as exceptions, which is `Create`'s `Err` cases. |
| AccountServices.RequestLostChangesNothing | account-services/src/main/java/com/nagp/microservices/accountservices/controllers/AccountService.java:83-87 | When the request to the user service is lost, create and close change neither store. |
| AccountServices.FailureWithReplyLeavesUsers | account-services/src/main/java/com/nagp/microservices/accountservices/controllers/AccountService.java:155-164 | Unless the peer's reply is lost, a failed create or close leaves the user store as it was. |
| AccountServices.FailedCloseKeepsAccountActive | account-services/src/main/java/com/nagp/microservices/accountservices/controllers/AccountService.java:158-164 | A close that fails leaves the account active. |
| AccountServices.CreateLeavesClosedAccounts | account-services/src/main/java/com/nagp/microservices/accountservices/controllers/AccountService.java:74-87 | Create never changes an inactive record: it only inserts a number that was not stored. |
| AccountServices.UpdateInfoLeavesClosedAccounts | account-services/src/main/java/com/nagp/microservices/accountservices/controllers/AccountService.java:118 | updateAccountInfo never changes an inactive record. |
| AccountServices.CloseLeavesClosedAccounts | account-services/src/main/java/com/nagp/microservices/accountservices/controllers/AccountService.java:152 | Close never changes an inactive record. |
| AccountServices.WrappedCloseFailureIsError | account-services/src/main/java/com/nagp/microservices/accountservices/controllers/AccountService.java:238-240 | Under the wrapper close returns ERROR if and only if it failed, and then the account store is unchanged. |
| AccountServices.ClosedAccountRejectsLedger | account-services/src/main/java/com/nagp/microservices/accountservices/controllers/AccountService.java:159-161 | After a successful close, withdraw, deposit, transfer (either side) and the summary refuse that account on the same store. |
| AccountServices.AppendKeepsConsistency | account-services/src/main/java/com/nagp/microservices/accountservices/controllers/AccountService.java:83-87 | Inserting a fresh account and appending its number to its known owner's list keeps the two stores consistent. |
| AccountServices.RemoveKeepsConsistency | account-services/src/main/java/com/nagp/microservices/accountservices/controllers/AccountService.java:155-161 | Marking a listed active account inactive and dropping its number from the owner's list keeps the two stores consistent. |
| AccountServices.CreatePreservesConsistency | account-services/src/main/java/com/nagp/microservices/accountservices/controllers/AccountService.java:83-87 | Unless the reply is lost, create keeps the two stores consistent: active accounts listed under their owner, listed numbers stored under that owner, no repeats. |
| AccountServices.ClosePreservesConsistency | account-services/src/main/java/com/nagp/microservices/accountservices/controllers/AccountService.java:155-162 | A successful close keeps the two stores consistent. |
| AccountServices.CloseSucceedsWhenConsistent | account-services/src/main/java/com/nagp/microservices/accountservices/controllers/AccountService.java:147-167 | In consistent stores, closing an open non-zero account succeeds whenever the call is delivered. |
| AccountServices.LostCreateReplyBreaksConsistency | account-services/src/main/java/com/nagp/microservices/accountservices/controllers/AccountService.java:83-90 | The peer change is not undone: after a lost reply to create, the owner lists an account that was never stored, and the stores are inconsistent. |
| AccountServices.LostCloseReplyBreaksConsistency | account-services/src/main/java/com/nagp/microservices/accountservices/controllers/AccountService.java:155-164 | After a lost reply to close, the account stays active but is no longer listed, and the stores are inconsistent. |
| AccountServices.UpdateInfoCanBreakConsistency | account-services/src/main/java/com/nagp/microservices/accountservices/controllers/AccountService.java:115-124 | updateAccountInfo can move an account to another owner without the user service knowing, breaking consistency. |
| AccountServices.UpdateUserCanBreakConsistency | user-services/src/main/java/com/nagp/microservices/userservices/controllers/UserService.java:96-120 | updateCustomerInfo replaces the account list wholesale, so it can drop an active account's number and break consistency. |
| AccountServices.SameOwnershipKeepsConsistency | account-services/src/main/java/com/nagp/microservices/accountservices/controllers/AccountService.java:118 | A change that keeps every account number, owner and active flag keeps the stores consistent, whatever it does to balances, histories and cheque flags. |
| AccountServices.WithdrawKeepsConsistency | operation-services/src/main/java/com/nagp/microservices/operationservices/controllers/OperationService.java:61-109 | Withdraw, on the collection it shares with the account service, keeps the stores consistent. |
| AccountServices.DepositKeepsConsistency | operation-services/src/main/java/com/nagp/microservices/operationservices/controllers/OperationService.java:120-161 | Deposit keeps the stores consistent. |
| AccountServices.TransferKeepsConsistency | operation-services/src/main/java/com/nagp/microservices/operationservices/controllers/OperationService.java:173-234 | Transfer keeps the stores consistent. |
| AccountServices.ChequeBookKeepsConsistency | miscellaneous-services/src/main/java/com/nagp/microservices/miscellaneousservices/controllers/MiscellaneousService.java:53-116 | Ordering or blocking a cheque book keeps the stores consistent, taking its account store to be the account service's. |
| AccountServices.AccountService.constructor | account-services/src/main/java/com/nagp/microservices/accountservices/controllers/AccountService.java:51-57 | The service starts over its collection and holds the user service it calls. |
| AccountServices.AccountService.CreateNewAccount | account-services/src/main/java/com/nagp/microservices/accountservices/controllers/AccountService.java:67-98 | Agrees with Create on reply, account store and user store. |
| AccountServices.AccountService.UpdateAccountInfo | account-services/src/main/java/com/nagp/microservices/accountservices/controllers/AccountService.java:108-130 | Agrees with UpdateInfo on reply and new store. |
| AccountServices.AccountService.CloseAccount | account-services/src/main/java/com/nagp/microservices/accountservices/controllers/AccountService.java:140-176 | Sets `active` false on the fetched copy and upserts it; agrees with Close on reply and both stores. |
| AccountServices.AccountService.GetTransactionSummary | account-services/src/main/java/com/nagp/microservices/accountservices/controllers/AccountService.java:187-210 | Read-only; returns what TransactionSummary returns. |
| AccountServices.AccountService.UpdateAccountInfoCommand | account-services/src/main/java/com/nagp/microservices/accountservices/controllers/AccountService.java:228-230 | Returns UpdateInfo's reply through the wrapper (ERROR on failure); the store is UpdateInfo's. |
| AccountServices.AccountService.CloseAccountCommand | account-services/src/main/java/com/nagp/microservices/accountservices/controllers/AccountService.java:238-240 | Returns Close's reply through the wrapper; both stores are Close's. |
| AccountServices.AccountService.GetTransactionSummaryCommand | account-services/src/main/java/com/nagp/microservices/accountservices/controllers/AccountService.java:248-250 | Returns WrappedTransactionSummary: null when the primary fails. |
| MiscellaneousServices.SetChequeBook | miscellaneous-services/src/main/java/com/nagp/microservices/miscellaneousservices/controllers/MiscellaneousService.java:53-116 | Succeeds if and only if the number parses, is non-zero and names an active account; then only that account's cheque-book flag changes, to the requested value. Account number 0, and only 0, gives "Invalid account number."; every failure leaves the store unchanged. |
| MiscellaneousServices.SetChequeBookIdempotent | miscellaneous-services/src/main/java/com/nagp/microservices/miscellaneousservices/controllers/MiscellaneousService.java:69-70 | Ordering (or blocking) twice gives the same reply and store as doing it once. |
| MiscellaneousServices.OnlyTheFlagChanges | miscellaneous-services/src/main/java/com/nagp/microservices/miscellaneousservices/controllers/MiscellaneousService.java:69-70 | No other field of any account changes, and the money held is the same. |
| MiscellaneousServices.ZeroRejectedWithoutLookup | miscellaneous-services/src/main/java/com/nagp/microservices/miscellaneousservices/controllers/MiscellaneousService.java:62 | Account number 0 is refused the same way whatever the store holds. |
| MiscellaneousServices.LastCallWins | miscellaneous-services/src/main/java/com/nagp/microservices/miscellaneousservices/controllers/MiscellaneousService.java:69-105 | Order then block (or any two calls) on an open account leaves the state the last call alone would. |
| MiscellaneousServices.ChequeBookLeavesClosedAccounts | miscellaneous-services/src/main/java/com/nagp/microservices/miscellaneousservices/controllers/MiscellaneousService.java:102 | Neither call changes an inactive record. |
| MiscellaneousServices.WrappedChequeBookFailureIsError | miscellaneous-services/src/main/java/com/nagp/microservices/miscellaneousservices/controllers/MiscellaneousService.java:124-136 | Under the wrapper the reply is ERROR if and only if the call failed. |
| MiscellaneousServices.MiscellaneousService.constructor | miscellaneous-services/src/main/java/com/nagp/microservices/miscellaneousservices/controllers/MiscellaneousService.java:39-45 | The service starts over the collection already in the store. |
| MiscellaneousServices.MiscellaneousService.OrderCheckBook | miscellaneous-services/src/main/java/com/nagp/microservices/miscellaneousservices/controllers/MiscellaneousService.java:55-80 | Agrees with SetChequeBook(…, true) on reply and new store. |
| MiscellaneousServices.MiscellaneousService.BlockCheckBook | miscellaneous-services/src/main/java/com/nagp/microservices/miscellaneousservices/controllers/MiscellaneousService.java:90-116 | Agrees with SetChequeBook(…, false) on reply and new store. |
| MiscellaneousServices.MiscellaneousService.UpdateChequeBook | miscellaneous-services/src/main/java/com/nagp/microservices/miscellaneousservices/controllers/MiscellaneousService.java:62-79 | The body both handlers share: fetch a copy, set the flag, upsert; agrees with SetChequeBook. |
| MiscellaneousServices.MiscellaneousService.OrderCheckBookCommand | miscellaneous-services/src/main/java/com/nagp/microservices/miscellaneousservices/controllers/MiscellaneousService.java:124-126 | Returns the order reply through the wrapper (ERROR on failure); the store is SetChequeBook's. |
| MiscellaneousServices.MiscellaneousService.BlockCheckBookCommand | miscellaneous-services/src/main/java/com/nagp/microservices/miscellaneousservices/controllers/MiscellaneousService.java:134-136 | Returns the block reply through the wrapper; the store is SetChequeBook's. |

## Left out

- JsonDB's file persistence, `createCollection` and disk paths: each store is an in-memory map.
- Class fields versus the shared collection: the `AccountService` and `OperationService` objects each hold their own `accounts` field.
  - In the deployment both open the collection under the same directory.
  - The classes do not express that sharing; only the pure functions share one store.
  - The miscellaneous service opens an account collection in the user service's directory. It is modelled as an independent account store.
- The miscellaneous service's own `Account` class is not part of this model. It is assumed to have the fields of the account service's `Account`, of which only `active` and the cheque-book flag are used.
- Hystrix timeouts, thread pools and the circuit-open state: only "the primary threw, so the fallback's value is returned" is modelled.
- Concurrency: lost updates between interleaved requests, and the race between two creates of one number, need interleavings that this sequential model does not express.
- `Long.parseLong`: the text of path variables is not modelled. A path variable is taken as already parsed (`Some(n)`) or as not parsing (`None`, a `NumberFormatException`).
- Long overflow: amounts and balances are unbounded integers, so the two's-complement wrap-around of `long` arithmetic is not modelled.
- Logging calls have no effect on state and are omitted.
- `Constants` and `AccountConstants` are not part of this model. Their `SUCCESS` is taken to be `"Success"`, as in `UserConstants`, and their `ERROR` to be `"Error"`. Only the fact that they differ matters to any proof.
- The Feign transport (`UserServiceProxy`), the gateway's logging filter and the Spring Boot bootstrap are plumbing. The transport is abstracted by `Delivery`.
- Unicode character data is not consulted: `Character.isWhitespace` is written out as the fixed set of code points Java reports as whitespace in current Unicode versions, where U+180E is no longer a space separator.
- Feign's decoding of the peer's reply is taken to return the peer's string unchanged before it is compared with SUCCESS.

## Findings

| source | as written | input that shows it | evidently intended | confidence | as-written member | corrected member |
|---|---|---|---|---|---|---|
| operation-services/src/main/java/com/nagp/microservices/operationservices/controllers/OperationService.java:185-224 | Both accounts are read as copies before either is written, and the credited copy of `to` is upserted after the debited copy of `from`. | `transferMoney(n, n, a)` on an active account n with balance b >= a, a != 0: the result is success, the balance is b + a and only a Credit entry is recorded | A transfer from an account to itself is refused (or is a no-op); the money held across accounts is conserved | not executed; medium (follows from JsonDB returning copies) | OperationServices.SelfTransferMintsMoney | OperationServices.CheckedTransferConserves |
| operation-services/src/main/java/com/nagp/microservices/operationservices/controllers/OperationService.java:182 | Only amounts equal to zero are rejected. | `transferMoney(1, 2, -50)` with both balances 0: success, and account 2 ends at -50 | Only positive amounts are moved, so no balance goes negative | not executed; medium | OperationServices.NegativeTransferOverdraws | OperationServices.CheckedTransferKeepsBalancesNonNegative |
| operation-services/src/main/java/com/nagp/microservices/operationservices/controllers/OperationService.java:128 | Only amounts equal to zero are rejected by the deposit guard. | `depositMoney(1, -50)` on an open account with balance 0: success, and the balance ends at -50 | Only positive amounts are deposited, so no balance goes negative | not executed; medium | OperationServices.NegativeDepositOverdraws | OperationServices.CheckedDepositKeepsBalancesNonNegative |

`OperationServices.CheckedTransfer` is the corrected transfer: it refuses equal account
numbers and non-positive amounts, and its contract states that it otherwise behaves as
`Transfer`. `OperationServices.CheckedDeposit` likewise refuses non-positive amounts and
otherwise behaves as `Deposit`. A withdrawal also accepts a negative amount, but it then
raises the balance (the guard `balance > amount` holds), so no balance goes negative
that way; that case is recorded as behaviour, not claimed as a defect.
