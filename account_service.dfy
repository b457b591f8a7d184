/**
 * The account service: creating, updating and closing accounts and reading their
 * transactions. Create and close first ask the user service to change the owner's
 * account list, and write locally only when it answers SUCCESS.
 */
module AccountServices {
  import opened Model
  import opened Strings
  import opened Lists
  import AccountUtil
  import UserServices
  import OperationServices
  import MiscellaneousServices
  import Hystrix

  /** How the HTTP call to the user service went. */
  datatype Delivery =
    | Delivered    // the peer ran the request and its reply came back
    | RequestLost  // the call threw before the peer saw the request
    | ReplyLost    // the peer ran the request, then the call threw

  /** createNewAccount. Not wrapped: its failures reach the caller as exceptions. */
  function Create(accounts: AccountStore, users: UserStore, account: Account, delivery: Delivery): (out: (Reply<string>, AccountStore, UserStore))
    ensures !AccountUtil.IsAccountValid(Some(account)) || account.accountNO in accounts ==>
      out.0.Err? && out.1 == accounts && out.2 == users
    ensures out.0.Ok? <==>
      && AccountUtil.IsAccountValid(Some(account)) && account.accountNO !in accounts && delivery == Delivered
      && UserServices.WrappedAddAccountTo(users, account.userID, Some(account.accountNO)).0 == SUCCESS
    ensures out.0.Ok? ==> out.0.value == SUCCESS && out.1 == accounts[account.accountNO := account]
    ensures out.0.Err? ==> out.1 == accounts
  {
    if !AccountUtil.IsAccountValid(Some(account)) then (Err(Runtime("Invalid account")), accounts, users)
    else if account.accountNO in accounts then (Err(Runtime("Account already exosts.")), accounts, users)
    else
      var peer := UserServices.WrappedAddAccountTo(users, account.userID, Some(account.accountNO));
      match delivery
      case RequestLost => (Err(Feign), accounts, users)
      case ReplyLost => (Err(Feign), accounts, peer.1)
      case Delivered =>
        if peer.0 == SUCCESS then (Ok(SUCCESS), Upsert(accounts, account), peer.1)
        else (Err(Runtime("User account list could not be updated.")), accounts, peer.1)
  }

  /**
   * What create does to the user service: nothing when it refuses the account
   * itself or the request is lost, and otherwise whatever addAccount did, whether
   * or not the reply comes back.
   */
  lemma CreatePeerEffect(accounts: AccountStore, users: UserStore, account: Account, delivery: Delivery)
    ensures var out := Create(accounts, users, account, delivery);
      if AccountUtil.IsAccountValid(Some(account)) && account.accountNO !in accounts && delivery != RequestLost
      then out.2 == UserServices.WrappedAddAccountTo(users, account.userID, Some(account.accountNO)).1
      else out.2 == users
  {
  }

  /** In user-store terms: create succeeds exactly when the owner is known to the user service. */
  lemma CreateSucceedsIff(accounts: AccountStore, users: UserStore, account: Account, delivery: Delivery)
    ensures var out := Create(accounts, users, account, delivery);
      && (out.0.Ok? <==>
           AccountUtil.IsAccountValid(Some(account)) && account.accountNO !in accounts
           && delivery == Delivered && account.userID in users)
      && (out.0.Ok? ==> out.2 == UserServices.AddAccountTo(users, account.userID, Some(account.accountNO)).1)
  {
    CreatePeerEffect(accounts, users, account, delivery);
  }

  /** updateAccountInfo: replace an active record wholesale with the input. */
  function UpdateInfo(accounts: AccountStore, account: Account): (out: (Reply<string>, AccountStore))
    ensures out.0.Ok? <==> AccountUtil.IsAccountValid(Some(account)) && IsOpen(accounts, account.accountNO)
    ensures out.0.Ok? ==> out.0.value == SUCCESS && out.1 == accounts[account.accountNO := account]
    ensures out.0.Err? ==> out.1 == accounts
  {
    if !AccountUtil.IsAccountValid(Some(account)) then (Err(Runtime("Invalid account")), accounts)
    else if !IsOpen(accounts, account.accountNO) then (Err(Runtime("Account does not exists.")), accounts)
    else (Ok(SUCCESS), accounts[account.accountNO := account])
  }

  /** closeAccount: once the owner's list has dropped the number, mark the record inactive. */
  function Close(accounts: AccountStore, users: UserStore, accountNO: Option<int>, delivery: Delivery): (out: (Reply<string>, AccountStore, UserStore))
    ensures out.0.Ok? <==>
      && accountNO.Some? && accountNO.value != 0 && IsOpen(accounts, accountNO.value) && delivery == Delivered
      && UserServices.WrappedRemoveAccountFrom(users, accounts[accountNO.value].userID, accountNO).0 == SUCCESS
    ensures out.0.Ok? ==>
      && out.0.value == SUCCESS
      && out.1 == accounts[accountNO.value := accounts[accountNO.value].(active := false)]
    ensures out.0.Err? ==> out.1 == accounts
  {
    if accountNO.None? then (Err(NumberFormat), accounts, users)
    else if accountNO.value == 0 then (Err(Runtime("Invalid account number.")), accounts, users)
    else if !IsOpen(accounts, accountNO.value) then (Err(Runtime("Acount does not exist.")), accounts, users)
    else
      var account := accounts[accountNO.value];
      var peer := UserServices.WrappedRemoveAccountFrom(users, account.userID, Some(account.accountNO));
      match delivery
      case RequestLost => (Err(Feign), accounts, users)
      case ReplyLost => (Err(Feign), accounts, peer.1)
      case Delivered =>
        if peer.0 == SUCCESS then (Ok(SUCCESS), Upsert(accounts, account.(active := false)), peer.1)
        else (Err(Runtime("User account list could not be updated.")), accounts, peer.1)
  }

  /**
   * What close does to the user service: nothing when the account is refused or
   * the request is lost, and otherwise whatever removeAccount did.
   */
  lemma ClosePeerEffect(accounts: AccountStore, users: UserStore, accountNO: Option<int>, delivery: Delivery)
    ensures var out := Close(accounts, users, accountNO, delivery);
      if accountNO.Some? && accountNO.value != 0 && IsOpen(accounts, accountNO.value) && delivery != RequestLost
      then out.2 == UserServices.WrappedRemoveAccountFrom(users, accounts[accountNO.value].userID, accountNO).1
      else out.2 == users
  {
  }

  /** In user-store terms: close succeeds exactly when the owner is known to the user service. */
  lemma CloseSucceedsIff(accounts: AccountStore, users: UserStore, accountNO: Option<int>, delivery: Delivery)
    ensures var out := Close(accounts, users, accountNO, delivery);
      && (out.0.Ok? <==>
           accountNO.Some? && accountNO.value != 0 && IsOpen(accounts, accountNO.value)
           && delivery == Delivered && accounts[accountNO.value].userID in users)
      && (out.0.Ok? ==> out.2 == UserServices.RemoveAccountFrom(users, accounts[accountNO.value].userID, accountNO).1)
  {
    ClosePeerEffect(accounts, users, accountNO, delivery);
  }

  /** getTransactionSummary: the transactions of an active account that has some. */
  function TransactionSummary(accounts: AccountStore, accountNO: Option<int>): (r: Reply<seq<Transaction>>)
    ensures r.Ok? <==>
      accountNO.Some? && accountNO.value != 0 && IsOpen(accounts, accountNO.value)
      && |accounts[accountNO.value].transactions| > 0
    ensures r.Ok? ==> r.value == accounts[accountNO.value].transactions
  {
    if accountNO.None? then Err(NumberFormat)
    else if accountNO.value == 0 then Err(Runtime("Invalid account number."))
    else if IsOpen(accounts, accountNO.value) && |accounts[accountNO.value].transactions| > 0 then
      Ok(accounts[accountNO.value].transactions)
    else Err(Runtime("Transaction details not available."))
  }

  /** getTransactionSummary as deployed: its fallback returns null (`None`). */
  function WrappedTransactionSummary(accounts: AccountStore, accountNO: Option<int>): (r: Option<seq<Transaction>>)
    ensures r.None? <==> TransactionSummary(accounts, accountNO).Err?
    ensures r.Some? ==> |r.value| > 0 && r.value == accounts[accountNO.value].transactions
  {
    match TransactionSummary(accounts, accountNO)
    case Ok(ts) => Hystrix.Run(Ok(Some(ts)), None)
    case Err(e) => Hystrix.Run(Err(e), None)
  }

  // ------------------------------------------------- lifecycle properties

  /** Only SUCCESS or an exception come back from create: never the ERROR sentinel. */
  lemma CreateIsUnwrapped(accounts: AccountStore, users: UserStore, account: Account, delivery: Delivery)
    ensures Create(accounts, users, account, delivery).0 != Ok(ERROR)
  {
    SentinelsDiffer();
  }

  /** A lost request changes neither store. */
  lemma RequestLostChangesNothing(accounts: AccountStore, users: UserStore, account: Account, accountNO: Option<int>)
    ensures Create(accounts, users, account, RequestLost).1 == accounts
    ensures Create(accounts, users, account, RequestLost).2 == users
    ensures Close(accounts, users, accountNO, RequestLost).1 == accounts
    ensures Close(accounts, users, accountNO, RequestLost).2 == users
  {
    CreatePeerEffect(accounts, users, account, RequestLost);
    ClosePeerEffect(accounts, users, accountNO, RequestLost);
  }

  /** A failure the account service sees leaves the user store unchanged, unless the reply was lost. */
  lemma FailureWithReplyLeavesUsers(accounts: AccountStore, users: UserStore, account: Account, accountNO: Option<int>, delivery: Delivery)
    requires delivery != ReplyLost
    ensures Create(accounts, users, account, delivery).0.Err? ==> Create(accounts, users, account, delivery).2 == users
    ensures Close(accounts, users, accountNO, delivery).0.Err? ==> Close(accounts, users, accountNO, delivery).2 == users
  {
    CreatePeerEffect(accounts, users, account, delivery);
    ClosePeerEffect(accounts, users, accountNO, delivery);
  }

  /** A failed close leaves the account active. */
  lemma FailedCloseKeepsAccountActive(accounts: AccountStore, users: UserStore, n: int, delivery: Delivery)
    requires IsOpen(accounts, n) && Close(accounts, users, Some(n), delivery).0.Err?
    ensures IsOpen(Close(accounts, users, Some(n), delivery).1, n)
  {
  }

  /** None of create, update and close changes an inactive record. */
  lemma CreateLeavesClosedAccounts(accounts: AccountStore, users: UserStore, account: Account, delivery: Delivery)
    ensures ClosedUntouched(accounts, Create(accounts, users, account, delivery).1)
  {
  }

  lemma UpdateInfoLeavesClosedAccounts(accounts: AccountStore, account: Account)
    ensures ClosedUntouched(accounts, UpdateInfo(accounts, account).1)
  {
  }

  lemma CloseLeavesClosedAccounts(accounts: AccountStore, users: UserStore, accountNO: Option<int>, delivery: Delivery)
    ensures ClosedUntouched(accounts, Close(accounts, users, accountNO, delivery).1)
  {
  }

  /** Under the wrapper a failed close reads as ERROR and the local record is unchanged. */
  lemma WrappedCloseFailureIsError(accounts: AccountStore, users: UserStore, accountNO: Option<int>, delivery: Delivery)
    ensures var out := Close(accounts, users, accountNO, delivery);
      (Hystrix.Run(out.0, ERROR) == ERROR <==> out.0.Err?) && (out.0.Err? ==> out.1 == accounts)
  {
    SentinelsDiffer();
  }

  /**
   * The operation service reads the same account collection: once an account is
   * closed, the ledger refuses it, as does the transaction summary.
   */
  lemma ClosedAccountRejectsLedger(accounts: AccountStore, users: UserStore, n: int, delivery: Delivery, other: Option<int>, amount: Option<int>)
    requires Close(accounts, users, Some(n), delivery).0.Ok?
    ensures var closed := Close(accounts, users, Some(n), delivery).1;
      && OperationServices.Withdraw(closed, Some(n), amount).0.Err?
      && OperationServices.Deposit(closed, Some(n), amount).0.Err?
      && OperationServices.Transfer(closed, Some(n), other, amount).0.Err?
      && OperationServices.Transfer(closed, other, Some(n), amount).0.Err?
      && TransactionSummary(closed, Some(n)).Err?
  {
  }

  // ------------------------------------------------ cross-service consistency

  /** `users` lists account `n` under user `u`. */
  ghost predicate ListedUnder(users: UserStore, u: string, n: int) {
    u in users && n in UserServices.ListOf(users[u])
  }

  /** Every active account is listed under its owner. */
  ghost predicate ActiveListed(accounts: AccountStore, users: UserStore) {
    forall n :: n in accounts && accounts[n].active ==> ListedUnder(users, accounts[n].userID, n)
  }

  /** Every listed number is an account of the user that lists it. */
  ghost predicate ListedOwned(accounts: AccountStore, users: UserStore) {
    forall u, n :: ListedUnder(users, u, n) ==> n in accounts && accounts[n].userID == u
  }

  /** No user's list repeats a number. */
  ghost predicate ListsDistinct(users: UserStore) {
    forall u :: u in users ==> NoDuplicates(UserServices.ListOf(users[u]))
  }

  /** The two stores agree, in the three senses above. */
  ghost predicate Consistent(accounts: AccountStore, users: UserStore) {
    ActiveListed(accounts, users) && ListedOwned(accounts, users) && ListsDistinct(users)
  }

  /** Storing a fresh account and appending its number to its owner's list keeps the stores in step. */
  lemma AppendKeepsConsistency(accounts: AccountStore, users: UserStore, account: Account, users': UserStore)
    requires Consistent(accounts, users)
    requires account.accountNO !in accounts && account.userID in users
    requires users' == users[account.userID :=
      users[account.userID].(userAccounts := Some(UserServices.ListOf(users[account.userID]) + [account.accountNO]))]
    ensures Consistent(Upsert(accounts, account), users')
  {
    var n, owner := account.accountNO, account.userID;
    var accounts' := Upsert(accounts, account);
    var before := UserServices.ListOf(users[owner]);
    assert UserServices.ListOf(users'[owner]) == before + [n];
    assert ListedUnder(users, owner, n) ==> n in accounts;
    assert n !in before;
    forall m | m in accounts' && accounts'[m].active
      ensures ListedUnder(users', accounts'[m].userID, m)
    {
      if m != n {
        assert ListedUnder(users, accounts[m].userID, m);
      }
    }
    forall u, m | ListedUnder(users', u, m)
      ensures m in accounts' && accounts'[m].userID == u
    {
      if !(u == owner && m == n) {
        assert ListedUnder(users, u, m);
      }
    }
    forall u | u in users'
      ensures NoDuplicates(UserServices.ListOf(users'[u]))
    {
      if u == owner { AppendFresh(before, n); }
    }
  }

  /**
   * Marking a listed account inactive and dropping its number from its owner's
   * list keeps the stores in step.
   */
  lemma RemoveKeepsConsistency(accounts: AccountStore, users: UserStore, n: int, users': UserStore)
    requires Consistent(accounts, users) && IsOpen(accounts, n) && accounts[n].userID in users
    requires users'.Keys == users.Keys
    requires forall u :: u in users && u != accounts[n].userID ==> users'[u] == users[u]
    requires UserServices.ListOf(users'[accounts[n].userID])
      == RemoveFirst(UserServices.ListOf(users[accounts[n].userID]), n)
    ensures Consistent(Upsert(accounts, accounts[n].(active := false)), users')
  {
    var owner := accounts[n].userID;
    var accounts' := Upsert(accounts, accounts[n].(active := false));
    var before := UserServices.ListOf(users[owner]);
    assert ListedUnder(users, owner, n);
    RemoveFirstOfDistinct(before, n);
    forall m | m in accounts' && accounts'[m].active
      ensures ListedUnder(users', accounts'[m].userID, m)
    {
      assert ListedUnder(users, accounts[m].userID, m);
    }
    forall u, m | ListedUnder(users', u, m)
      ensures m in accounts' && accounts'[m].userID == u
    {
      assert ListedUnder(users, u, m);
    }
  }

  lemma CreatePreservesConsistency(accounts: AccountStore, users: UserStore, account: Account, delivery: Delivery)
    requires Consistent(accounts, users)
    ensures Consistent(Create(accounts, users, account, delivery).1, Create(accounts, users, account, delivery).2)
      || delivery == ReplyLost
  {
    var out := Create(accounts, users, account, delivery);
    CreateSucceedsIff(accounts, users, account, delivery);
    if out.0.Ok? {
      AppendKeepsConsistency(accounts, users, account, out.2);
    } else if delivery != ReplyLost {
      FailureWithReplyLeavesUsers(accounts, users, account, None, delivery);
    }
  }

  lemma ClosePreservesConsistency(accounts: AccountStore, users: UserStore, accountNO: Option<int>, delivery: Delivery)
    requires Consistent(accounts, users)
    requires Close(accounts, users, accountNO, delivery).0.Ok?
    ensures Consistent(Close(accounts, users, accountNO, delivery).1, Close(accounts, users, accountNO, delivery).2)
  {
    var out := Close(accounts, users, accountNO, delivery);
    CloseSucceedsIff(accounts, users, accountNO, delivery);
    var n := accountNO.value;
    var owner := accounts[n].userID;
    assert ListedUnder(users, owner, n);
    RemoveKeepsConsistency(accounts, users, n, out.2);
  }

  /** In consistent stores, closing an open account succeeds whenever the call goes through. */
  lemma CloseSucceedsWhenConsistent(accounts: AccountStore, users: UserStore, n: int)
    requires Consistent(accounts, users) && n != 0 && IsOpen(accounts, n)
    ensures Close(accounts, users, Some(n), Delivered).0 == Ok(SUCCESS)
  {
    assert ListedUnder(users, accounts[n].userID, n);
  }

  /**
   * No compensation: when the reply to a create is lost, the owner's list names an
   * account that was never stored.
   */
  lemma LostCreateReplyBreaksConsistency(accounts: AccountStore, users: UserStore, account: Account)
    requires Consistent(accounts, users)
    requires AccountUtil.IsAccountValid(Some(account)) && account.accountNO !in accounts && account.userID in users
    ensures Create(accounts, users, account, ReplyLost).0 == Err(Feign)
    ensures ListedUnder(Create(accounts, users, account, ReplyLost).2, account.userID, account.accountNO)
    ensures !Consistent(Create(accounts, users, account, ReplyLost).1, Create(accounts, users, account, ReplyLost).2)
  {
    var out := Create(accounts, users, account, ReplyLost);
    assert UserServices.ListOf(out.2[account.userID]) == UserServices.ListOf(users[account.userID]) + [account.accountNO];
    assert ListedUnder(out.2, account.userID, account.accountNO);
  }

  /** No compensation: when the reply to a close is lost, an active account is listed nowhere. */
  lemma LostCloseReplyBreaksConsistency(accounts: AccountStore, users: UserStore, n: int)
    requires Consistent(accounts, users) && n != 0 && IsOpen(accounts, n)
    ensures Close(accounts, users, Some(n), ReplyLost).0 == Err(Feign)
    ensures IsOpen(Close(accounts, users, Some(n), ReplyLost).1, n)
    ensures !Consistent(Close(accounts, users, Some(n), ReplyLost).1, Close(accounts, users, Some(n), ReplyLost).2)
  {
    var owner := accounts[n].userID;
    assert ListedUnder(users, owner, n);
    var out := Close(accounts, users, Some(n), ReplyLost);
    var before := UserServices.ListOf(users[owner]);
    assert UserServices.ListOf(out.2[owner]) == RemoveFirst(before, n);
    RemoveFirstOfDistinct(before, n);
    assert !ListedUnder(out.2, owner, n);
  }

  /** updateAccountInfo can hand an account to another owner without telling the user service. */
  lemma UpdateInfoCanBreakConsistency()
    ensures exists accounts: AccountStore, users: UserStore, account: Account ::
      (Consistent(accounts, users) && UpdateInfo(accounts, account).0.Ok?
       && !Consistent(UpdateInfo(accounts, account).1, users))
  {
    var a := Account("a", 1, "x", true, Some(0), false, []);
    var accounts: AccountStore := map[1 := a];
    var users: UserStore := map["a" := User("a", "p", "e", Some([1]))];
    assert ListedUnder(users, "a", 1);
    assert forall u, n :: ListedUnder(users, u, n) ==> u == "a" && n == 1;
    assert Consistent(accounts, users);
    var moved := a.(userID := "b");
    assert !IsWhitespace("b"[0]);
    assert UpdateInfo(accounts, moved).0.Ok?;
    assert !ListedUnder(users, "b", 1);
    assert !Consistent(UpdateInfo(accounts, moved).1, users);
  }

  /** updateCustomerInfo can replace a user's account list wholesale, breaking consistency. */
  lemma UpdateUserCanBreakConsistency()
    ensures exists accounts: AccountStore, users: UserStore, user: User ::
      (Consistent(accounts, users) && UserServices.UpdateUser(users, user).0.Ok?
       && !Consistent(accounts, UserServices.UpdateUser(users, user).1))
  {
    var accounts: AccountStore := map[1 := Account("a", 1, "x", true, Some(0), false, [])];
    var users: UserStore := map["a" := User("a", "p", "e", Some([1]))];
    assert ListedUnder(users, "a", 1);
    assert forall u, n :: ListedUnder(users, u, n) ==> u == "a" && n == 1;
    assert Consistent(accounts, users);
    var emptied := User("a", "p", "e", Some([]));
    assert !IsWhitespace("a"[0]) && !IsWhitespace("p"[0]) && !IsWhitespace("e"[0]);
    assert UserServices.UpdateUser(users, emptied).0.Ok?;
    assert !ListedUnder(UserServices.UpdateUser(users, emptied).1, "a", 1);
    assert !Consistent(accounts, UserServices.UpdateUser(users, emptied).1);
  }

  /**
   * A change that keeps every number, and every record's owner and active flag,
   * keeps the stores in step: balances, histories and cheque flags play no part.
   */
  lemma SameOwnershipKeepsConsistency(accounts: AccountStore, accounts': AccountStore, users: UserStore)
    requires Consistent(accounts, users)
    requires accounts'.Keys == accounts.Keys
    requires forall n :: n in accounts ==>
      accounts'[n].active == accounts[n].active && accounts'[n].userID == accounts[n].userID
    ensures Consistent(accounts', users)
  {
    forall m | m in accounts' && accounts'[m].active
      ensures ListedUnder(users, accounts'[m].userID, m)
    {
      assert m in accounts && accounts[m].active;
    }
    forall u, m | ListedUnder(users, u, m)
      ensures m in accounts' && accounts'[m].userID == u
    {
      assert m in accounts && accounts[m].userID == u;
    }
  }

  lemma WithdrawKeepsConsistency(accounts: AccountStore, users: UserStore, n: Option<int>, amount: Option<int>)
    requires Consistent(accounts, users)
    ensures Consistent(OperationServices.Withdraw(accounts, n, amount).1, users)
  {
    var out := OperationServices.Withdraw(accounts, n, amount);
    if out.0.Ok? {
      SameOwnershipKeepsConsistency(accounts, out.1, users);
    }
  }

  lemma DepositKeepsConsistency(accounts: AccountStore, users: UserStore, n: Option<int>, amount: Option<int>)
    requires Consistent(accounts, users)
    ensures Consistent(OperationServices.Deposit(accounts, n, amount).1, users)
  {
    var out := OperationServices.Deposit(accounts, n, amount);
    if out.0.Ok? {
      SameOwnershipKeepsConsistency(accounts, out.1, users);
    }
  }

  lemma TransferKeepsConsistency(accounts: AccountStore, users: UserStore, f: Option<int>, t: Option<int>, amount: Option<int>)
    requires Consistent(accounts, users)
    ensures Consistent(OperationServices.Transfer(accounts, f, t, amount).1, users)
  {
    var out := OperationServices.Transfer(accounts, f, t, amount);
    if out.0.Ok? {
      SameOwnershipKeepsConsistency(accounts, out.1, users);
    }
  }

  lemma ChequeBookKeepsConsistency(accounts: AccountStore, users: UserStore, n: Option<int>, issued: bool)
    requires Consistent(accounts, users)
    ensures Consistent(MiscellaneousServices.SetChequeBook(accounts, n, issued).1, users)
  {
    var out := MiscellaneousServices.SetChequeBook(accounts, n, issued);
    if out.0.Ok? {
      SameOwnershipKeepsConsistency(accounts, out.1, users);
    }
  }

  // ------------------------------------------------------------ the service

  class AccountService {
    var accounts: AccountStore
    const userService: UserServices.UserService

    constructor (initial: AccountStore, peer: UserServices.UserService)
      ensures accounts == initial && userService == peer
    {
      accounts := initial;
      userService := peer;
    }

    method CreateNewAccount(account: Account, delivery: Delivery) returns (r: Reply<string>)
      modifies this, userService
      ensures (r, accounts, userService.users) == Create(old(accounts), old(userService.users), account, delivery)
    {
      if AccountUtil.IsAccountValid(Some(account)) {
        if account.accountNO in accounts {
          return Err(Runtime("Account already exosts."));
        }
        var response: Reply<string> := Err(Feign);
        if delivery != RequestLost {
          var reply := userService.AddAccountCommand(account.userID, Some(account.accountNO));
          if delivery == Delivered {
            response := Ok(reply);
          }
        }
        if response.Err? {
          return response;
        }
        if response.value == SUCCESS {
          accounts := Upsert(accounts, account);
        } else {
          return Err(Runtime("User account list could not be updated."));
        }
        return Ok(SUCCESS);
      } else {
        return Err(Runtime("Invalid account"));
      }
    }

    method UpdateAccountInfo(account: Account) returns (r: Reply<string>)
      modifies this
      ensures (r, accounts) == UpdateInfo(old(accounts), account)
    {
      if AccountUtil.IsAccountValid(Some(account)) {
        if account.accountNO !in accounts || !accounts[account.accountNO].active {
          return Err(Runtime("Account does not exists."));
        } else {
          accounts := Upsert(accounts, account);
          return Ok(SUCCESS);
        }
      } else {
        return Err(Runtime("Invalid account"));
      }
    }

    method CloseAccount(accountNO: Option<int>, delivery: Delivery) returns (r: Reply<string>)
      modifies this, userService
      ensures (r, accounts, userService.users) == Close(old(accounts), old(userService.users), accountNO, delivery)
    {
      if accountNO.None? {
        return Err(NumberFormat);
      }
      var accountNumber := accountNO.value;
      if accountNumber != 0 {
        if accountNumber in accounts && accounts[accountNumber].active {
          var account := accounts[accountNumber];
          var response: Reply<string> := Err(Feign);
          if delivery != RequestLost {
            var reply := userService.RemoveAccountCommand(account.userID, Some(account.accountNO));
            if delivery == Delivered {
              response := Ok(reply);
            }
          }
          if response.Err? {
            return response;
          }
          if response.value == SUCCESS {
            account := account.(active := false);
            accounts := Upsert(accounts, account);
          } else {
            return Err(Runtime("User account list could not be updated."));
          }
          return Ok(SUCCESS);
        } else {
          return Err(Runtime("Acount does not exist."));
        }
      } else {
        return Err(Runtime("Invalid account number."));
      }
    }

    method GetTransactionSummary(accountNO: Option<int>) returns (r: Reply<seq<Transaction>>)
      ensures r == TransactionSummary(accounts, accountNO)
    {
      if accountNO.None? {
        return Err(NumberFormat);
      }
      var accountNumber := accountNO.value;
      if accountNumber != 0 {
        if accountNumber in accounts && accounts[accountNumber].active && |accounts[accountNumber].transactions| > 0 {
          return Ok(accounts[accountNumber].transactions);
        } else {
          return Err(Runtime("Transaction details not available."));
        }
      } else {
        return Err(Runtime("Invalid account number."));
      }
    }

    /** updateAccountInfo as deployed, with updateAccountInfoFallBackMethod. */
    method UpdateAccountInfoCommand(account: Account) returns (reply: string)
      modifies this
      ensures reply == Hystrix.Run(UpdateInfo(old(accounts), account).0, ERROR)
      ensures accounts == UpdateInfo(old(accounts), account).1
    {
      var r := UpdateAccountInfo(account);
      reply := Hystrix.Run(r, ERROR);
    }

    /** closeAccount as deployed, with closeAccountFallBackMethod. */
    method CloseAccountCommand(accountNO: Option<int>, delivery: Delivery) returns (reply: string)
      modifies this, userService
      ensures var out := Close(old(accounts), old(userService.users), accountNO, delivery);
        reply == Hystrix.Run(out.0, ERROR) && accounts == out.1 && userService.users == out.2
    {
      var r := CloseAccount(accountNO, delivery);
      reply := Hystrix.Run(r, ERROR);
    }

    /** getTransactionSummary as deployed, with getTransactionSummaryFallBackMethod. */
    method GetTransactionSummaryCommand(accountNO: Option<int>) returns (transactions: Option<seq<Transaction>>)
      ensures transactions == WrappedTransactionSummary(accounts, accountNO)
    {
      var r := GetTransactionSummary(accountNO);
      match r
      case Ok(ts) => transactions := Hystrix.Run(Ok(Some(ts)), None);
      case Err(e) => transactions := Hystrix.Run(Err(e), None);
    }
  }
}
