/** AccountUtil: the validity test applied to an account in a request body. */
module AccountUtil {
  import opened Model
  import opened Strings

  /** Non-null, a non-zero account number and a non-blank owner ID. */
  function IsAccountValid(account: Option<Account>): (valid: bool)
    ensures valid ==> account.Some? && account.value.accountNO != 0 && |account.value.userID| > 0
  {
    account.Some? && account.value.accountNO != 0 && IsNotBlank(account.value.userID)
  }

  lemma NullAccountInvalid()
    ensures !IsAccountValid(None)
  {
  }

  lemma ZeroNumberInvalid(a: Account)
    requires a.accountNO == 0
    ensures !IsAccountValid(Some(a))
  {
  }

  lemma BlankOwnerInvalid(a: Account)
    requires IsBlank(a.userID)
    ensures !IsAccountValid(Some(a))
  {
  }

  /** Balance, branch, the two flags and the transactions play no part. */
  lemma ValidityIgnoresOtherFields(a: Account, b: Account)
    requires a.accountNO == b.accountNO && a.userID == b.userID
    ensures IsAccountValid(Some(a)) == IsAccountValid(Some(b))
  {
  }

  /** The three tests are the whole of it: passing them makes an account valid. */
  lemma ValidWhenAllTestsPass(a: Account)
    requires a.accountNO != 0 && exists i :: 0 <= i < |a.userID| && !IsWhitespace(a.userID[i])
    ensures IsAccountValid(Some(a))
  {
  }
}
