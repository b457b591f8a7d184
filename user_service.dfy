/**
 * The user service: registration, replacement, and the account list each user
 * keeps. addAccount and removeAccount are what the account service calls.
 */
module UserServices {
  import opened Model
  import opened Strings
  import opened Lists
  import UserUtil
  import Hystrix

  /** The stored account list; a null list becomes a new empty one when a handler needs it. */
  function ListOf(u: User): seq<int> {
    if u.userAccounts.Some? then u.userAccounts.value else []
  }

  /** registerNewCustomer: insert a valid user whose ID is not taken. */
  function RegisterUser(s: UserStore, user: User): (out: (Reply<string>, UserStore))
    ensures out.0.Ok? <==> UserUtil.IsUserValid(user) && user.userID !in s
    ensures out.0.Ok? ==> out.0.value == SUCCESS && out.1 == s[user.userID := user]
    ensures out.0.Err? ==> out.1 == s
  {
    if !UserUtil.IsUserValid(user) then (Err(Runtime("Invalid user")), s)
    else if user.userID in s then (Err(Runtime("User already exists.")), s)
    else (Ok(SUCCESS), s[user.userID := user])
  }

  /** updateCustomerInfo: replace the stored record of a known user with the input. */
  function UpdateUser(s: UserStore, user: User): (out: (Reply<string>, UserStore))
    ensures out.0.Ok? <==> UserUtil.IsUserValid(user) && user.userID in s
    ensures out.0.Ok? ==> out.0.value == SUCCESS && out.1 == s[user.userID := user]
    ensures out.0.Err? ==> out.1 == s
  {
    if !UserUtil.IsUserValid(user) then (Err(Runtime("Invalid user")), s)
    else if user.userID !in s then (Err(Runtime("User does not exist.")), s)
    else (Ok(SUCCESS), s[user.userID := user])
  }

  /** getAccountsList: the stored list of a known user whose list is not null. */
  function AccountsOf(s: UserStore, userID: string): (r: Reply<seq<int>>)
    ensures r.Ok? <==> IsNotBlank(userID) && userID in s && s[userID].userAccounts.Some?
    ensures r.Ok? ==> r.value == s[userID].userAccounts.value
  {
    if !IsNotBlank(userID) then Err(Runtime("Invalid user ID."))
    else if userID in s && s[userID].userAccounts.Some? then Ok(s[userID].userAccounts.value)
    else Err(Runtime("User does not exist."))
  }

  /** addAccount: append the number to a known user's list; no duplicate check. */
  function AddAccountTo(s: UserStore, userID: string, accountNo: Option<int>): (out: (Reply<string>, UserStore))
    ensures out.0.Ok? <==> accountNo.Some? && accountNo.value != 0 && userID in s
    ensures out.0.Ok? ==>
      && out.0.value == SUCCESS
      && out.1 == s[userID := s[userID].(userAccounts := Some(ListOf(s[userID]) + [accountNo.value]))]
    ensures out.0.Err? ==> out.1 == s
  {
    if accountNo.None? then (Err(NumberFormat), s)
    else if accountNo.value == 0 then (Err(Runtime("Invalid user")), s)
    else if userID !in s then (Err(Runtime("User does not exist.")), s)
    else
      var u := s[userID];
      (Ok(SUCCESS), s[userID := u.(userAccounts := Some(ListOf(u) + [accountNo.value]))])
  }

  /**
   * removeAccount: drop the first occurrence of the number if it is listed. The
   * user is written back (with a non-null list) and SUCCESS returned either way.
   */
  function RemoveAccountFrom(s: UserStore, userID: string, accountNo: Option<int>): (out: (Reply<string>, UserStore))
    ensures out.0.Ok? <==> accountNo.Some? && accountNo.value != 0 && userID in s
    ensures out.0.Ok? ==>
      && out.0.value == SUCCESS
      && out.1.Keys == s.Keys
      && (forall u :: u in s && u != userID ==> out.1[u] == s[u])
      && out.1[userID].(userAccounts := s[userID].userAccounts) == s[userID]
      && out.1[userID].userAccounts.Some?
      && ListOf(out.1[userID]) == RemoveFirst(ListOf(s[userID]), accountNo.value)
    ensures out.0.Err? ==> out.1 == s
  {
    if accountNo.None? then (Err(NumberFormat), s)
    else if accountNo.value == 0 then (Err(Runtime("Invalid user")), s)
    else if userID !in s then (Err(Runtime("User does not exist.")), s)
    else
      var u := s[userID];
      var accounts := ListOf(u);
      var kept := if accountNo.value in accounts then RemoveFirst(accounts, accountNo.value) else accounts;
      (Ok(SUCCESS), s[userID := u.(userAccounts := Some(kept))])
  }

  /** addAccount as deployed: a failure reads as USER_ID_DOES_NOT_EXIST. */
  function WrappedAddAccountTo(s: UserStore, userID: string, accountNo: Option<int>): (out: (string, UserStore))
    ensures out.0 == SUCCESS <==> AddAccountTo(s, userID, accountNo).0.Ok?
    ensures out.0 != SUCCESS ==> out.0 == USER_ID_DOES_NOT_EXIST && out.1 == s
    ensures out.1 == AddAccountTo(s, userID, accountNo).1
  {
    var (r, t) := AddAccountTo(s, userID, accountNo);
    SentinelsDiffer();
    (Hystrix.Run(r, USER_ID_DOES_NOT_EXIST), t)
  }

  /** removeAccount as deployed: a failure reads as USER_ID_DOES_NOT_EXIST. */
  function WrappedRemoveAccountFrom(s: UserStore, userID: string, accountNo: Option<int>): (out: (string, UserStore))
    ensures out.0 == SUCCESS <==> RemoveAccountFrom(s, userID, accountNo).0.Ok?
    ensures out.0 != SUCCESS ==> out.0 == USER_ID_DOES_NOT_EXIST && out.1 == s
    ensures out.1 == RemoveAccountFrom(s, userID, accountNo).1
  {
    var (r, t) := RemoveAccountFrom(s, userID, accountNo);
    SentinelsDiffer();
    (Hystrix.Run(r, USER_ID_DOES_NOT_EXIST), t)
  }

  // ----------------------------------------------------------------- lemmas

  /** A second registration under a taken ID fails and leaves the stored record alone. */
  lemma DuplicateRegistrationFails(s: UserStore, user: User)
    requires user.userID in s
    ensures RegisterUser(s, user).0.Err?
    ensures RegisterUser(s, user).1[user.userID] == s[user.userID]
  {
  }

  /** Adding the same number twice lists it twice, at the end. */
  lemma AddTwiceListsTwice(s: UserStore, userID: string, n: int)
    requires n != 0 && userID in s
    ensures var once := AddAccountTo(s, userID, Some(n)).1;
      ListOf(AddAccountTo(once, userID, Some(n)).1[userID]) == ListOf(s[userID]) + [n, n]
  {
  }

  /** Removing a number that is not listed still succeeds and keeps the list's contents. */
  lemma RemoveAbsentStillSucceeds(s: UserStore, userID: string, n: int)
    requires n != 0 && userID in s && n !in ListOf(s[userID])
    ensures RemoveAccountFrom(s, userID, Some(n)).0 == Ok(SUCCESS)
    ensures ListOf(RemoveAccountFrom(s, userID, Some(n)).1[userID]) == ListOf(s[userID])
  {
  }

  /** Removal takes away exactly one occurrence of the number, if there is one. */
  lemma RemoveTakesOneOccurrence(s: UserStore, userID: string, n: int)
    requires n != 0 && userID in s
    ensures multiset(ListOf(RemoveAccountFrom(s, userID, Some(n)).1[userID]))
         == multiset(ListOf(s[userID])) - multiset{n}
  {
    RemoveFirstCount(ListOf(s[userID]), n);
  }

  /** Removing the first occurrence of a number just appended to a list without it. */
  lemma {:induction false} RemoveAppended(l: seq<int>, n: int)
    requires n !in l
    ensures RemoveFirst(l + [n], n) == l
  {
    assert IndexOf(l + [n], n) == |l|;
    assert (l + [n])[..|l|] == l;
  }

  /** addAccount followed by removeAccount of a fresh number restores the user store. */
  lemma AddThenRemoveRestores(s: UserStore, userID: string, n: int)
    requires n != 0 && userID in s && s[userID].userAccounts.Some? && n !in ListOf(s[userID])
    ensures var added := AddAccountTo(s, userID, Some(n)).1;
      RemoveAccountFrom(added, userID, Some(n)) == (Ok(SUCCESS), s)
  {
    var added := AddAccountTo(s, userID, Some(n)).1;
    RemoveAppended(ListOf(s[userID]), n);
    var out := RemoveAccountFrom(added, userID, Some(n)).1;
    assert out[userID] == s[userID];
    assert out == s;
  }

  /** What addAccount wrote is what getAccountsList then returns. */
  lemma AccountsListAfterAdd(s: UserStore, userID: string, n: int)
    requires n != 0 && userID in s && IsNotBlank(userID)
    ensures AccountsOf(AddAccountTo(s, userID, Some(n)).1, userID) == Ok(ListOf(s[userID]) + [n])
  {
  }

  /** Wrapped getAccountsList: an unknown user and a user with no accounts look the same. */
  lemma EmptyListAmbiguous(s: UserStore, known: string, unknown: string)
    requires known in s && s[known].userAccounts == Some([]) && unknown !in s
    ensures Hystrix.Run(AccountsOf(s, known), []) == Hystrix.Run(AccountsOf(s, unknown), []) == []
  {
  }

  /** Under the wrapper, register and update return their sentinel exactly when they fail. */
  lemma WrappedRegisterUpdateFailureDetectable(s: UserStore, user: User)
    ensures Hystrix.Run(RegisterUser(s, user).0, USER_ID_ALREADY_EXISTS + " OR " + REQUIRED_FIELDS_NULL)
         == USER_ID_ALREADY_EXISTS + " OR " + REQUIRED_FIELDS_NULL
      <==> RegisterUser(s, user).0.Err?
    ensures Hystrix.Run(UpdateUser(s, user).0, USER_ID_DOES_NOT_EXIST + " OR " + REQUIRED_FIELDS_NULL)
         == USER_ID_DOES_NOT_EXIST + " OR " + REQUIRED_FIELDS_NULL
      <==> UpdateUser(s, user).0.Err?
  {
    CombinedSentinelsDiffer();
  }

  // ------------------------------------------------------------ the service

  class UserService {
    var users: UserStore

    constructor (initial: UserStore)
      ensures users == initial
    {
      users := initial;
    }

    method RegisterNewCustomer(user: User) returns (r: Reply<string>)
      modifies this
      ensures (r, users) == RegisterUser(old(users), user)
    {
      if UserUtil.IsUserValid(user) {
        if user.userID in users {
          return Err(Runtime("User already exists."));
        }
        users := users[user.userID := user];
        return Ok(SUCCESS);
      } else {
        return Err(Runtime("Invalid user"));
      }
    }

    method UpdateCustomerInfo(user: User) returns (r: Reply<string>)
      modifies this
      ensures (r, users) == UpdateUser(old(users), user)
    {
      if UserUtil.IsUserValid(user) {
        if user.userID !in users {
          return Err(Runtime("User does not exist."));
        } else {
          users := users[user.userID := user];
          return Ok(SUCCESS);
        }
      } else {
        return Err(Runtime("Invalid user"));
      }
    }

    method GetAccountsList(userID: string) returns (r: Reply<seq<int>>)
      ensures r == AccountsOf(users, userID)
    {
      if IsNotBlank(userID) {
        if userID in users && users[userID].userAccounts.Some? {
          return Ok(users[userID].userAccounts.value);
        } else {
          return Err(Runtime("User does not exist."));
        }
      } else {
        return Err(Runtime("Invalid user ID."));
      }
    }

    method AddAccount(userID: string, accountNo: Option<int>) returns (r: Reply<string>)
      modifies this
      ensures (r, users) == AddAccountTo(old(users), userID, accountNo)
    {
      if accountNo.None? {
        return Err(NumberFormat);
      }
      var accountNumber := accountNo.value;
      if accountNumber != 0 {
        if userID !in users {
          return Err(Runtime("User does not exist."));
        } else {
          var existingUser := users[userID];
          var accounts := existingUser.userAccounts;
          if accounts.None? {
            accounts := Some([]);
          }
          accounts := Some(accounts.value + [accountNumber]);
          existingUser := existingUser.(userAccounts := accounts);
          users := users[existingUser.userID := existingUser];
          return Ok(SUCCESS);
        }
      } else {
        return Err(Runtime("Invalid user"));
      }
    }

    method RemoveAccount(userID: string, accountNo: Option<int>) returns (r: Reply<string>)
      modifies this
      ensures (r, users) == RemoveAccountFrom(old(users), userID, accountNo)
    {
      if accountNo.None? {
        return Err(NumberFormat);
      }
      var accountNumber := accountNo.value;
      if accountNumber != 0 {
        if userID !in users {
          return Err(Runtime("User does not exist."));
        } else {
          var existingUser := users[userID];
          var accounts := existingUser.userAccounts;
          if accounts.None? {
            accounts := Some([]);
          }
          if accountNumber in accounts.value {
            accounts := Some(RemoveFirst(accounts.value, accountNumber));
          }
          existingUser := existingUser.(userAccounts := accounts);
          users := users[existingUser.userID := existingUser];
          return Ok(SUCCESS);
        }
      } else {
        return Err(Runtime("Invalid user"));
      }
    }

    /** registerNewCustomer as deployed, with registerNewCustomerFallBackMethod. */
    method RegisterNewCustomerCommand(user: User) returns (reply: string)
      modifies this
      ensures reply == Hystrix.Run(RegisterUser(old(users), user).0, USER_ID_ALREADY_EXISTS + " OR " + REQUIRED_FIELDS_NULL)
      ensures users == RegisterUser(old(users), user).1
    {
      var r := RegisterNewCustomer(user);
      reply := Hystrix.Run(r, USER_ID_ALREADY_EXISTS + " OR " + REQUIRED_FIELDS_NULL);
    }

    /** updateCustomerInfo as deployed, with updateCustomerInfoFallBackMethod. */
    method UpdateCustomerInfoCommand(user: User) returns (reply: string)
      modifies this
      ensures reply == Hystrix.Run(UpdateUser(old(users), user).0, USER_ID_DOES_NOT_EXIST + " OR " + REQUIRED_FIELDS_NULL)
      ensures users == UpdateUser(old(users), user).1
    {
      var r := UpdateCustomerInfo(user);
      reply := Hystrix.Run(r, USER_ID_DOES_NOT_EXIST + " OR " + REQUIRED_FIELDS_NULL);
    }

    /** getAccountsList as deployed: a failure reads as an empty list. */
    method GetAccountsListCommand(userID: string) returns (accounts: seq<int>)
      ensures accounts == Hystrix.Run(AccountsOf(users, userID), [])
      ensures AccountsOf(users, userID).Err? ==> accounts == []
    {
      var r := GetAccountsList(userID);
      accounts := Hystrix.Run(r, []);
    }

    /** addAccount as deployed, with addAccountFallBackMethod. */
    method AddAccountCommand(userID: string, accountNo: Option<int>) returns (reply: string)
      modifies this
      ensures (reply, users) == WrappedAddAccountTo(old(users), userID, accountNo)
    {
      var r := AddAccount(userID, accountNo);
      reply := Hystrix.Run(r, USER_ID_DOES_NOT_EXIST);
    }

    /** removeAccount as deployed, with removeAccountFallBackMethod. */
    method RemoveAccountCommand(userID: string, accountNo: Option<int>) returns (reply: string)
      modifies this
      ensures (reply, users) == WrappedRemoveAccountFrom(old(users), userID, accountNo)
    {
      var r := RemoveAccount(userID, accountNo);
      reply := Hystrix.Run(r, USER_ID_DOES_NOT_EXIST);
    }
  }
}
