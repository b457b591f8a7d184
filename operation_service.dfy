/**
 * The operation service: deposit, withdraw and transfer on its collection of
 * accounts. Each handler reads records, changes a copy and upserts it; a failed
 * check throws before any upsert.
 */
module OperationServices {
  import opened Model
  import Hystrix

  /** The record after moving its balance by `delta` and appending `entry`. */
  function Post(a: Account, delta: int, entry: Transaction): (b: Account)
    requires a.balance.Some?
    ensures b.balance == Some(a.balance.value + delta)
    ensures b.transactions == a.transactions + [entry]
    ensures b.(balance := a.balance, transactions := a.transactions) == a
  {
    a.(balance := Some(a.balance.value + delta), transactions := a.transactions + [entry])
  }

  /** withdrawMoney. Requires a balance strictly greater than the amount. */
  function Withdraw(s: AccountStore, accountNO: Option<int>, amount: Option<int>): (out: (Reply<string>, AccountStore))
    ensures out.0.Ok? <==>
      && accountNO.Some? && amount.Some? && accountNO.value != 0 && amount.value != 0
      && IsOpen(s, accountNO.value) && s[accountNO.value].balance.Some?
      && s[accountNO.value].balance.value > amount.value
    ensures out.0.Ok? ==>
      && out.0.value == SUCCESS
      && out.1 == s[accountNO.value := Post(s[accountNO.value], -amount.value, Transaction(amount.value, DEBIT))]
    ensures out.0.Err? ==> out.1 == s
  {
    if accountNO.None? || amount.None? then (Err(NumberFormat), s)
    else
      var n, amt := accountNO.value, amount.value;
      if n == 0 || amt == 0 then (Err(Runtime("Invalid account number.")), s)
      else if !IsOpen(s, n) then (Err(Runtime("Account does not exist.")), s)
      else if s[n].balance.None? then (Err(NullPointer), s)
      else if s[n].balance.value > amt then
        (Ok(SUCCESS), Upsert(s, Post(s[n], -amt, Transaction(amt, DEBIT))))
      else (Err(Runtime("Insufficient Balance.")), s)
  }

  /** depositMoney. No balance check at all. */
  function Deposit(s: AccountStore, accountNO: Option<int>, amount: Option<int>): (out: (Reply<string>, AccountStore))
    ensures out.0.Ok? <==>
      && accountNO.Some? && amount.Some? && accountNO.value != 0 && amount.value != 0
      && IsOpen(s, accountNO.value) && s[accountNO.value].balance.Some?
    ensures out.0.Ok? ==>
      && out.0.value == SUCCESS
      && out.1 == s[accountNO.value := Post(s[accountNO.value], amount.value, Transaction(amount.value, CREDIT))]
    ensures out.0.Err? ==> out.1 == s
  {
    if accountNO.None? || amount.None? then (Err(NumberFormat), s)
    else
      var n, amt := accountNO.value, amount.value;
      if n == 0 || amt == 0 then (Err(Runtime("Invalid account number.")), s)
      else if !IsOpen(s, n) then (Err(Runtime("Account does not exist.")), s)
      else if s[n].balance.None? then (Err(NullPointer), s)
      else (Ok(SUCCESS), Upsert(s, Post(s[n], amt, Transaction(amt, CREDIT))))
  }

  /**
   * transferMoney. Requires a balance at least the amount. Both records are read
   * (as copies) before either is written, then `from` is upserted and `to` after it.
   */
  function Transfer(s: AccountStore, from: Option<int>, to: Option<int>, amount: Option<int>): (out: (Reply<string>, AccountStore))
    ensures out.0.Ok? <==>
      && from.Some? && to.Some? && amount.Some?
      && from.value != 0 && to.value != 0 && amount.value != 0
      && IsOpen(s, from.value) && IsOpen(s, to.value)
      && s[from.value].balance.Some? && s[from.value].balance.value >= amount.value
      && s[to.value].balance.Some?
    ensures out.0.Ok? ==>
      && out.0.value == SUCCESS
      && out.1 == s[from.value := Post(s[from.value], -amount.value, Transaction(amount.value, DEBIT))]
                   [to.value := Post(s[to.value], amount.value, Transaction(amount.value, CREDIT))]
    ensures out.0.Err? ==> out.1 == s
  {
    if from.None? || to.None? || amount.None? then (Err(NumberFormat), s)
    else
      var f, t, amt := from.value, to.value, amount.value;
      if f == 0 || t == 0 || amt == 0 then (Err(Runtime("")), s)
      else if !(IsOpen(s, f) && IsOpen(s, t)) then (Err(Runtime("")), s)
      else if s[f].balance.None? then (Err(NullPointer), s)
      else if s[f].balance.value < amt then (Err(Runtime("")), s)
      else if s[t].balance.None? then (Err(NullPointer), s)
      else
        var debited := Post(s[f], -amt, Transaction(amt, DEBIT));
        var credited := Post(s[t], amt, Transaction(amt, CREDIT));
        (Ok(SUCCESS), Upsert(Upsert(s, debited), credited))
  }

  // ---------------------------------------------------------------- totals

  /** What an account contributes to the total held; a null balance counts as zero. */
  function Bal(a: Account): int {
    if a.balance.Some? then a.balance.value else 0
  }

  lemma HasMember(keys: set<int>)
    requires keys != {}
    ensures exists n :: n in keys
  {
    if forall n :: n !in keys {
      assert false;
    }
  }

  ghost function SumOver(s: map<int, Account>, keys: set<int>): int
    requires keys <= s.Keys
    decreases keys
  {
    if keys == {} then 0 else HasMember(keys); var n :| n in keys; Bal(s[n]) + SumOver(s, keys - {n})
  }

  /** The money held by all accounts of a collection. */
  ghost function Total(s: map<int, Account>): int {
    SumOver(s, s.Keys)
  }

  lemma {:induction false} SumOverRemove(s: map<int, Account>, keys: set<int>, k: int)
    requires keys <= s.Keys && k in keys
    ensures SumOver(s, keys) == Bal(s[k]) + SumOver(s, keys - {k})
    decreases keys
  {
    var n :| n in keys && SumOver(s, keys) == Bal(s[n]) + SumOver(s, keys - {n});
    if n != k {
      SumOverRemove(s, keys - {n}, k);
      SumOverRemove(s, keys - {k}, n);
      assert keys - {n} - {k} == keys - {k} - {n};
    }
  }

  lemma {:induction false} SumOverFrame(s: map<int, Account>, t: map<int, Account>, keys: set<int>)
    requires keys <= s.Keys && keys <= t.Keys
    requires forall k :: k in keys ==> Bal(s[k]) == Bal(t[k])
    ensures SumOver(s, keys) == SumOver(t, keys)
    decreases keys
  {
    if keys != {} {
      HasMember(keys);
      var n :| n in keys;
      SumOverRemove(s, keys, n);
      SumOverRemove(t, keys, n);
      SumOverFrame(s, t, keys - {n});
    }
  }

  /** Replacing one record changes the total by the change in that record's balance. */
  lemma TotalUpdate(s: map<int, Account>, k: int, a: Account)
    requires k in s
    ensures Total(s[k := a]) == Total(s) - Bal(s[k]) + Bal(a)
  {
    var t := s[k := a];
    assert t.Keys == s.Keys;
    SumOverRemove(s, s.Keys, k);
    SumOverRemove(t, s.Keys, k);
    SumOverFrame(s, t, s.Keys - {k});
  }

  lemma DepositRaisesTotal(s: AccountStore, accountNO: Option<int>, amount: Option<int>)
    requires Deposit(s, accountNO, amount).0.Ok?
    ensures Total(Deposit(s, accountNO, amount).1) == Total(s) + amount.value
  {
    var n := accountNO.value;
    TotalUpdate(s, n, Post(s[n], amount.value, Transaction(amount.value, CREDIT)));
  }

  lemma WithdrawLowersTotal(s: AccountStore, accountNO: Option<int>, amount: Option<int>)
    requires Withdraw(s, accountNO, amount).0.Ok?
    ensures Total(Withdraw(s, accountNO, amount).1) == Total(s) - amount.value
  {
    var n := accountNO.value;
    TotalUpdate(s, n, Post(s[n], -amount.value, Transaction(amount.value, DEBIT)));
  }

  /** Between two distinct accounts a transfer only moves money. */
  lemma TransferConservesTotal(s: AccountStore, from: Option<int>, to: Option<int>, amount: Option<int>)
    requires Transfer(s, from, to, amount).0.Ok? && from != to
    ensures Total(Transfer(s, from, to, amount).1) == Total(s)
    ensures Bal(Transfer(s, from, to, amount).1[from.value]) == Bal(s[from.value]) - amount.value
    ensures Bal(Transfer(s, from, to, amount).1[to.value]) == Bal(s[to.value]) + amount.value
  {
    var f, t, amt := from.value, to.value, amount.value;
    var debited := Post(s[f], -amt, Transaction(amt, DEBIT));
    var s1 := s[f := debited];
    TotalUpdate(s, f, debited);
    TotalUpdate(s1, t, Post(s[t], amt, Transaction(amt, CREDIT)));
  }

  // ------------------------------------------------------ boundary behaviour

  /** Withdrawing the whole balance is refused. */
  lemma WithdrawRejectsWholeBalance(s: AccountStore, n: int, amt: int)
    requires n != 0 && amt != 0 && IsOpen(s, n) && s[n].balance == Some(amt)
    ensures Withdraw(s, Some(n), Some(amt)) == (Err(Runtime("Insufficient Balance.")), s)
  {
  }

  /** Transferring the whole balance is allowed and leaves zero behind. */
  lemma TransferAcceptsWholeBalance(s: AccountStore, f: int, t: int, amt: int)
    requires f != 0 && t != 0 && f != t && amt != 0
    requires IsOpen(s, f) && IsOpen(s, t) && s[f].balance == Some(amt) && s[t].balance.Some?
    ensures Transfer(s, Some(f), Some(t), Some(amt)).0 == Ok(SUCCESS)
    ensures Transfer(s, Some(f), Some(t), Some(amt)).1[f].balance == Some(0)
  {
  }

  /** The two balance checks really differ: the same record passes one and fails the other. */
  lemma BoundariesDiffer()
    ensures exists s: AccountStore, f: int, t: int, amt: int ::
      Withdraw(s, Some(f), Some(amt)).0.Err? && Transfer(s, Some(f), Some(t), Some(amt)).0.Ok?
  {
    var a := Account("u", 1, "b", true, Some(100), false, []);
    var b := Account("v", 2, "b", true, Some(0), false, []);
    var s: AccountStore := map[1 := a, 2 := b];
    WithdrawRejectsWholeBalance(s, 1, 100);
    TransferAcceptsWholeBalance(s, 1, 2, 100);
  }

  /** Only zero is rejected: a negative deposit is accepted and lowers the balance. */
  lemma NegativeDepositAccepted(s: AccountStore, n: int, amt: int)
    requires n != 0 && amt < 0 && IsOpen(s, n) && s[n].balance.Some?
    ensures Deposit(s, Some(n), Some(amt)).0 == Ok(SUCCESS)
    ensures Bal(Deposit(s, Some(n), Some(amt)).1[n]) < Bal(s[n])
  {
  }

  /** Deposit is not idempotent: a repeated deposit is applied again. */
  lemma DepositTwiceCountsTwice(s: AccountStore, n: int, amt: int)
    requires Deposit(s, Some(n), Some(amt)).0.Ok?
    ensures var once := Deposit(s, Some(n), Some(amt)).1;
      && Deposit(once, Some(n), Some(amt)).0.Ok?
      && Deposit(once, Some(n), Some(amt)).1[n].balance == Some(s[n].balance.value + 2 * amt)
      && |Deposit(once, Some(n), Some(amt)).1[n].transactions| == |s[n].transactions| + 2
      && Deposit(once, Some(n), Some(amt)).1 != once
  {
    var once := Deposit(s, Some(n), Some(amt)).1;
    var twice := Deposit(once, Some(n), Some(amt)).1;
    assert |twice[n].transactions| != |once[n].transactions|;
  }

  /** A withdrawal never changes an inactive record. */
  lemma WithdrawLeavesClosedAccounts(s: AccountStore, n: Option<int>, amount: Option<int>)
    ensures ClosedUntouched(s, Withdraw(s, n, amount).1)
  {
  }

  /** A deposit never changes an inactive record. */
  lemma DepositLeavesClosedAccounts(s: AccountStore, n: Option<int>, amount: Option<int>)
    ensures ClosedUntouched(s, Deposit(s, n, amount).1)
  {
  }

  /** A transfer never changes an inactive record. */
  lemma TransferLeavesClosedAccounts(s: AccountStore, f: Option<int>, t: Option<int>, amount: Option<int>)
    ensures ClosedUntouched(s, Transfer(s, f, t, amount).1)
  {
  }

  // ------------------------------------------------------------ the wrapper

  /** Under the wrapper a failure reads as ERROR, and then nothing was written. */
  lemma WrappedFailureIsError(s: AccountStore, f: Option<int>, t: Option<int>, amount: Option<int>)
    ensures var (r, s') := Withdraw(s, f, amount);
      (Hystrix.Run(r, ERROR) == ERROR <==> r.Err?) && (Hystrix.Run(r, ERROR) == ERROR ==> s' == s)
    ensures var (r, s') := Deposit(s, f, amount);
      (Hystrix.Run(r, ERROR) == ERROR <==> r.Err?) && (Hystrix.Run(r, ERROR) == ERROR ==> s' == s)
    ensures var (r, s') := Transfer(s, f, t, amount);
      (Hystrix.Run(r, ERROR) == ERROR <==> r.Err?) && (Hystrix.Run(r, ERROR) == ERROR ==> s' == s)
  {
    Hystrix.SentinelDetectsFailure(Withdraw(s, f, amount).0, ERROR);
    Hystrix.SentinelDetectsFailure(Deposit(s, f, amount).0, ERROR);
    Hystrix.SentinelDetectsFailure(Transfer(s, f, t, amount).0, ERROR);
  }

  // --------------------------------------------------------------- findings

  /** As written: a transfer from an account to itself credits it without the debit. */
  lemma SelfTransferMintsMoney(s: AccountStore, n: int, amt: int)
    requires n != 0 && amt != 0 && IsOpen(s, n) && s[n].balance.Some? && s[n].balance.value >= amt
    ensures Transfer(s, Some(n), Some(n), Some(amt)).0 == Ok(SUCCESS)
    ensures Transfer(s, Some(n), Some(n), Some(amt)).1[n].balance == Some(s[n].balance.value + amt)
    ensures Transfer(s, Some(n), Some(n), Some(amt)).1[n].transactions == s[n].transactions + [Transaction(amt, CREDIT)]
    ensures Total(Transfer(s, Some(n), Some(n), Some(amt)).1) == Total(s) + amt
  {
    var credited := Post(s[n], amt, Transaction(amt, CREDIT));
    assert s[n := Post(s[n], -amt, Transaction(amt, DEBIT))][n := credited] == s[n := credited];
    TotalUpdate(s, n, credited);
  }

  /** Every recorded balance is non-negative. */
  predicate NonNegative(s: AccountStore) {
    forall n :: n in s && s[n].balance.Some? ==> s[n].balance.value >= 0
  }

  /** As written: a negative amount moves money the other way and can overdraw `to`. */
  lemma NegativeTransferOverdraws()
    ensures exists s: AccountStore :: (NonNegative(s)
      && Transfer(s, Some(1), Some(2), Some(-50)).0 == Ok(SUCCESS)
      && !NonNegative(Transfer(s, Some(1), Some(2), Some(-50)).1))
  {
    var s: AccountStore := map[1 := Account("u", 1, "b", true, Some(0), false, []),
                               2 := Account("v", 2, "b", true, Some(0), false, [])];
    assert Transfer(s, Some(1), Some(2), Some(-50)).1[2].balance == Some(-50);
  }

  /** As written: a negative deposit is a withdrawal without the balance test, and can overdraw. */
  lemma NegativeDepositOverdraws()
    ensures exists s: AccountStore :: (NonNegative(s)
      && Deposit(s, Some(1), Some(-50)).0 == Ok(SUCCESS)
      && !NonNegative(Deposit(s, Some(1), Some(-50)).1))
  {
    var s: AccountStore := map[1 := Account("u", 1, "b", true, Some(0), false, [])];
    assert Deposit(s, Some(1), Some(-50)).1[1].balance == Some(-50);
  }

  /** depositMoney with the evidently intended guard: a positive amount. */
  function CheckedDeposit(s: AccountStore, accountNO: Option<int>, amount: Option<int>): (out: (Reply<string>, AccountStore))
    ensures out.0.Ok? ==> amount.Some? && amount.value > 0 && out == Deposit(s, accountNO, amount)
    ensures out.0.Err? ==> out.1 == s
    ensures !(accountNO.Some? && amount.Some? && amount.value <= 0) ==> out == Deposit(s, accountNO, amount)
  {
    if accountNO.Some? && amount.Some? && amount.value <= 0 then (Err(Runtime("")), s)
    else Deposit(s, accountNO, amount)
  }

  lemma CheckedDepositKeepsBalancesNonNegative(s: AccountStore, accountNO: Option<int>, amount: Option<int>)
    requires NonNegative(s)
    ensures NonNegative(CheckedDeposit(s, accountNO, amount).1)
  {
  }

  /** transferMoney with the evidently intended guards: distinct accounts, a positive amount. */
  function CheckedTransfer(s: AccountStore, from: Option<int>, to: Option<int>, amount: Option<int>): (out: (Reply<string>, AccountStore))
    ensures out.0.Ok? ==> from != to && amount.Some? && amount.value > 0 && out == Transfer(s, from, to, amount)
    ensures out.0.Err? ==> out.1 == s
    ensures !(from.Some? && to.Some? && amount.Some? && (from == to || amount.value <= 0)) ==> out == Transfer(s, from, to, amount)
  {
    if from.Some? && to.Some? && amount.Some? && (from == to || amount.value <= 0) then (Err(Runtime("")), s)
    else Transfer(s, from, to, amount)
  }

  lemma CheckedTransferConserves(s: AccountStore, from: Option<int>, to: Option<int>, amount: Option<int>)
    ensures Total(CheckedTransfer(s, from, to, amount).1) == Total(s)
  {
    if CheckedTransfer(s, from, to, amount).0.Ok? {
      TransferConservesTotal(s, from, to, amount);
    }
  }

  lemma CheckedTransferKeepsBalancesNonNegative(s: AccountStore, from: Option<int>, to: Option<int>, amount: Option<int>)
    requires NonNegative(s)
    ensures NonNegative(CheckedTransfer(s, from, to, amount).1)
  {
  }

  // ------------------------------------------------------------ the service

  class OperationService {
    var accounts: AccountStore

    constructor (initial: AccountStore)
      ensures accounts == initial
    {
      accounts := initial;
    }

    method WithdrawMoney(accountNO: Option<int>, amount: Option<int>) returns (r: Reply<string>)
      modifies this
      ensures (r, accounts) == Withdraw(old(accounts), accountNO, amount)
    {
      if accountNO.None? || amount.None? {
        return Err(NumberFormat);
      }
      var accountNumber, amountNumber := accountNO.value, amount.value;
      if accountNumber != 0 && amountNumber != 0 {
        if accountNumber in accounts && accounts[accountNumber].active {
          var account := accounts[accountNumber];
          if account.balance.None? {
            return Err(NullPointer);
          }
          if account.balance.value > amountNumber {
            account := account.(balance := Some(account.balance.value - amountNumber));
            account := account.(transactions := account.transactions + [Transaction(amountNumber, DEBIT)]);
          } else {
            return Err(Runtime("Insufficient Balance."));
          }
          accounts := Upsert(accounts, account);
          return Ok(SUCCESS);
        } else {
          return Err(Runtime("Account does not exist."));
        }
      } else {
        return Err(Runtime("Invalid account number."));
      }
    }

    method DepositMoney(accountNO: Option<int>, amount: Option<int>) returns (r: Reply<string>)
      modifies this
      ensures (r, accounts) == Deposit(old(accounts), accountNO, amount)
    {
      if accountNO.None? || amount.None? {
        return Err(NumberFormat);
      }
      var accountNumber, amountNumber := accountNO.value, amount.value;
      if accountNumber != 0 && amountNumber != 0 {
        if accountNumber in accounts && accounts[accountNumber].active {
          var account := accounts[accountNumber];
          if account.balance.None? {
            return Err(NullPointer);
          }
          account := account.(balance := Some(account.balance.value + amountNumber));
          account := account.(transactions := account.transactions + [Transaction(amountNumber, CREDIT)]);
          accounts := Upsert(accounts, account);
          return Ok(SUCCESS);
        } else {
          return Err(Runtime("Account does not exist."));
        }
      } else {
        return Err(Runtime("Invalid account number."));
      }
    }

    method TransferMoney(from: Option<int>, to: Option<int>, amount: Option<int>) returns (r: Reply<string>)
      modifies this
      ensures (r, accounts) == Transfer(old(accounts), from, to, amount)
    {
      if from.None? || to.None? || amount.None? {
        return Err(NumberFormat);
      }
      var fromNumber, toNumber, amountNumber := from.value, to.value, amount.value;
      if fromNumber != 0 && toNumber != 0 && amountNumber != 0 {
        if fromNumber in accounts && accounts[fromNumber].active && toNumber in accounts && accounts[toNumber].active {
          var accountFrom, accountTo := accounts[fromNumber], accounts[toNumber];
          if accountFrom.balance.None? {
            return Err(NullPointer);
          }
          if accountFrom.balance.value < amountNumber {
            return Err(Runtime(""));
          }
          accountFrom := accountFrom.(balance := Some(accountFrom.balance.value - amountNumber));
          accountFrom := accountFrom.(transactions := accountFrom.transactions + [Transaction(amountNumber, DEBIT)]);
          if accountTo.balance.None? {
            return Err(NullPointer);
          }
          accountTo := accountTo.(balance := Some(accountTo.balance.value + amountNumber));
          accountTo := accountTo.(transactions := accountTo.transactions + [Transaction(amountNumber, CREDIT)]);
          accounts := Upsert(accounts, accountFrom);
          accounts := Upsert(accounts, accountTo);
          return Ok(SUCCESS);
        } else {
          return Err(Runtime(""));
        }
      } else {
        return Err(Runtime(""));
      }
    }

    /** withdrawMoney as deployed, with withdrawMoneyFallBackMethod. */
    method WithdrawMoneyCommand(accountNO: Option<int>, amount: Option<int>) returns (reply: string)
      modifies this
      ensures reply == Hystrix.Run(Withdraw(old(accounts), accountNO, amount).0, ERROR)
      ensures accounts == Withdraw(old(accounts), accountNO, amount).1
      ensures reply != SUCCESS ==> accounts == old(accounts)
    {
      var r := WithdrawMoney(accountNO, amount);
      reply := Hystrix.Run(r, ERROR);
    }

    /** depositMoney as deployed, with depositMoneyFallBackMethod. */
    method DepositMoneyCommand(accountNO: Option<int>, amount: Option<int>) returns (reply: string)
      modifies this
      ensures reply == Hystrix.Run(Deposit(old(accounts), accountNO, amount).0, ERROR)
      ensures accounts == Deposit(old(accounts), accountNO, amount).1
      ensures reply != SUCCESS ==> accounts == old(accounts)
    {
      var r := DepositMoney(accountNO, amount);
      reply := Hystrix.Run(r, ERROR);
    }

    /** transferMoney as deployed, with transferMoneyFallBackMethod. */
    method TransferMoneyCommand(from: Option<int>, to: Option<int>, amount: Option<int>) returns (reply: string)
      modifies this
      ensures reply == Hystrix.Run(Transfer(old(accounts), from, to, amount).0, ERROR)
      ensures accounts == Transfer(old(accounts), from, to, amount).1
      ensures reply != SUCCESS ==> accounts == old(accounts)
    {
      var r := TransferMoney(from, to, amount);
      reply := Hystrix.Run(r, ERROR);
    }
  }
}
