/**
 * The miscellaneous service: ordering and blocking the cheque book of an active
 * account by setting or clearing one flag on its record.
 */
module MiscellaneousServices {
  import opened Model
  import OperationServices
  import Hystrix

  /** orderCheckBook (issued = true) and blockCheckBook (issued = false). */
  function SetChequeBook(s: AccountStore, accountNO: Option<int>, issued: bool): (out: (Reply<string>, AccountStore))
    ensures out.0.Ok? <==> accountNO.Some? && accountNO.value != 0 && IsOpen(s, accountNO.value)
    ensures out.0.Ok? ==>
      && out.0.value == SUCCESS
      && out.1 == s[accountNO.value := s[accountNO.value].(chequeBookIssued := issued)]
    ensures out.0.Err? ==> out.1 == s
    ensures out.0 == Err(Runtime("Invalid account number.")) <==> accountNO == Some(0)
  {
    if accountNO.None? then (Err(NumberFormat), s)
    else if accountNO.value == 0 then (Err(Runtime("Invalid account number.")), s)
    else if !IsOpen(s, accountNO.value) then (Err(Runtime("Account does not exist.")), s)
    else
      var account := s[accountNO.value];
      (Ok(SUCCESS), Upsert(s, account.(chequeBookIssued := issued)))
  }

  /** Setting the flag to the value it already has changes nothing. */
  lemma SetChequeBookIdempotent(s: AccountStore, accountNO: Option<int>, issued: bool)
    ensures var once := SetChequeBook(s, accountNO, issued);
      SetChequeBook(once.1, accountNO, issued) == (once.0, once.1)
  {
    var once := SetChequeBook(s, accountNO, issued);
    if once.0.Ok? {
      var n := accountNO.value;
      assert once.1[n := once.1[n].(chequeBookIssued := issued)] == once.1;
    }
  }

  /** Only the flag changes: balance, owner, status and history stay as they were. */
  lemma OnlyTheFlagChanges(s: AccountStore, accountNO: Option<int>, issued: bool)
    ensures var out := SetChequeBook(s, accountNO, issued);
      && out.1.Keys == s.Keys
      && (forall n :: n in s ==> out.1[n].(chequeBookIssued := s[n].chequeBookIssued) == s[n])
      && OperationServices.Total(out.1) == OperationServices.Total(s)
  {
    var out := SetChequeBook(s, accountNO, issued);
    if out.0.Ok? {
      var n := accountNO.value;
      OperationServices.TotalUpdate(s, n, s[n].(chequeBookIssued := issued));
    }
  }

  /** Account number 0 is refused whatever the store holds. */
  lemma ZeroRejectedWithoutLookup(s: AccountStore, t: AccountStore, issued: bool)
    ensures SetChequeBook(s, Some(0), issued).0 == SetChequeBook(t, Some(0), issued).0
    ensures SetChequeBook(s, Some(0), issued).0.Err?
  {
  }

  /** Ordering and then blocking leaves the flag cleared, and the reverse leaves it set. */
  lemma LastCallWins(s: AccountStore, n: int, first: bool, second: bool)
    requires n != 0 && IsOpen(s, n)
    ensures var after := SetChequeBook(SetChequeBook(s, Some(n), first).1, Some(n), second).1;
      after == SetChequeBook(s, Some(n), second).1
  {
    var once := SetChequeBook(s, Some(n), first).1;
    assert once[n := once[n].(chequeBookIssued := second)] == s[n := s[n].(chequeBookIssued := second)];
  }

  /** Neither call touches an inactive record. */
  lemma ChequeBookLeavesClosedAccounts(s: AccountStore, accountNO: Option<int>, issued: bool)
    ensures ClosedUntouched(s, SetChequeBook(s, accountNO, issued).1)
  {
  }

  /** Under the wrapper every failure reads as ERROR. */
  lemma WrappedChequeBookFailureIsError(s: AccountStore, accountNO: Option<int>, issued: bool)
    ensures Hystrix.Run(SetChequeBook(s, accountNO, issued).0, ERROR) == ERROR
      <==> SetChequeBook(s, accountNO, issued).0.Err?
  {
    SentinelsDiffer();
  }

  class MiscellaneousService {
    var accounts: AccountStore

    constructor (initial: AccountStore)
      ensures accounts == initial
    {
      accounts := initial;
    }

    method OrderCheckBook(accountNO: Option<int>) returns (r: Reply<string>)
      modifies this
      ensures (r, accounts) == SetChequeBook(old(accounts), accountNO, true)
    {
      r := UpdateChequeBook(accountNO, true);
    }

    method BlockCheckBook(accountNO: Option<int>) returns (r: Reply<string>)
      modifies this
      ensures (r, accounts) == SetChequeBook(old(accounts), accountNO, false)
    {
      r := UpdateChequeBook(accountNO, false);
    }

    /** The shared body of both handlers: fetch a copy, set its flag, upsert it. */
    method UpdateChequeBook(accountNO: Option<int>, issued: bool) returns (r: Reply<string>)
      modifies this
      ensures (r, accounts) == SetChequeBook(old(accounts), accountNO, issued)
    {
      if accountNO.None? {
        return Err(NumberFormat);
      }
      var accountNumber := accountNO.value;
      if accountNumber != 0 {
        if accountNumber in accounts && accounts[accountNumber].active {
          var account := accounts[accountNumber];
          account := account.(chequeBookIssued := issued);
          accounts := Upsert(accounts, account);
          return Ok(SUCCESS);
        } else {
          return Err(Runtime("Account does not exist."));
        }
      } else {
        return Err(Runtime("Invalid account number."));
      }
    }

    /** orderCheckBook as deployed, with orderCheckBookFallBackMethod. */
    method OrderCheckBookCommand(accountNO: Option<int>) returns (reply: string)
      modifies this
      ensures reply == Hystrix.Run(SetChequeBook(old(accounts), accountNO, true).0, ERROR)
      ensures accounts == SetChequeBook(old(accounts), accountNO, true).1
    {
      var r := OrderCheckBook(accountNO);
      reply := Hystrix.Run(r, ERROR);
    }

    /** blockCheckBook as deployed, with blockCheckBookFallBackMethod. */
    method BlockCheckBookCommand(accountNO: Option<int>) returns (reply: string)
      modifies this
      ensures reply == Hystrix.Run(SetChequeBook(old(accounts), accountNO, false).0, ERROR)
      ensures accounts == SetChequeBook(old(accounts), accountNO, false).1
    {
      var r := BlockCheckBook(accountNO);
      reply := Hystrix.Run(r, ERROR);
    }
  }
}
