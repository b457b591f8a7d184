/**
 * The entities the services store, the outcome of a request handler, and the
 * string constants the handlers return.
 */
module Model {

  datatype Option<+T> = None | Some(value: T)

  /** Why a handler's body threw instead of returning. */
  datatype Failure =
    | Runtime(message: string)  // a RuntimeException with this message ("" when it has none)
    | NumberFormat              // Long.parseLong rejected a path variable
    | NullPointer               // a null Long balance was unboxed
    | Feign                     // the HTTP call to the peer service threw

  /** What a handler's own body produces: a value, or an exception. */
  datatype Reply<+T> = Ok(value: T) | Err(failure: Failure)

  /** One ledger entry: the amount and "Credit" or "Debit". */
  datatype Transaction = Transaction(amount: int, transactionType: string)

  /**
   * An account record. A null balance is `None`; a null transaction list is
   * the empty sequence (every operation treats the two alike).
   */
  datatype Account = Account(
    userID: string,
    accountNO: int,
    branch: string,
    active: bool,
    balance: Option<int>,
    chequeBookIssued: bool,
    transactions: seq<Transaction>)

  /** A user record; a null account list (`None`) differs from an empty one. */
  datatype User = User(
    userID: string,
    userAddress: string,
    userEmail: string,
    userAccounts: Option<seq<int>>)

  /** A collection of accounts, keyed by each record's own account number. */
  type AccountStore = s: map<int, Account> | forall n :: n in s ==> s[n].accountNO == n
    witness map[]

  /** A collection of users, keyed by each record's own user ID. */
  type UserStore = s: map<string, User> | forall u :: u in s ==> s[u].userID == u
    witness map[]

  /** jsonDBTemplate.upsert (and insert of a new key): store the record under its own number. */
  function Upsert(s: AccountStore, a: Account): (t: AccountStore)
    ensures t == s[a.accountNO := a]
  {
    s[a.accountNO := a]
  }

  /** findById returned a record and it is active. */
  predicate IsOpen(s: AccountStore, n: int) {
    n in s && s[n].active
  }

  /** Every inactive record of `s` is still in `t`, unchanged. */
  predicate ClosedUntouched(s: AccountStore, t: AccountStore) {
    forall n :: n in s && !s[n].active ==> n in t && t[n] == s[n]
  }

  const SUCCESS := "Success"
  const ERROR := "Error"
  const CREDIT := "Credit"
  const DEBIT := "Debit"
  const USER_ID_ALREADY_EXISTS := "User ID already exists."
  const REQUIRED_FIELDS_NULL := "One or more required fields are null."
  const USER_ID_DOES_NOT_EXIST := "User with ID does not exist."

  /** The success string is none of the single-message sentinels. */
  lemma SentinelsDiffer()
    ensures SUCCESS != ERROR && SUCCESS != USER_ID_DOES_NOT_EXIST
  {
  }

  /** Nor is it either of the two-message sentinels of register and update. */
  lemma CombinedSentinelsDiffer()
    ensures SUCCESS != USER_ID_ALREADY_EXISTS + " OR " + REQUIRED_FIELDS_NULL
    ensures SUCCESS != USER_ID_DOES_NOT_EXIST + " OR " + REQUIRED_FIELDS_NULL
  {
  }
}
