/** UserUtil: the validity test applied to a user in a request body. */
module UserUtil {
  import opened Model
  import opened Strings

  /** ID, address and e-mail are all non-blank. */
  function IsUserValid(user: User): (valid: bool)
    ensures valid ==> |user.userID| > 0 && |user.userAddress| > 0 && |user.userEmail| > 0
  {
    IsNotBlank(user.userID) && IsNotBlank(user.userAddress) && IsNotBlank(user.userEmail)
  }

  lemma BlankIDInvalid(user: User)
    requires IsBlank(user.userID)
    ensures !IsUserValid(user)
  {
  }

  lemma BlankAddressInvalid(user: User)
    requires IsBlank(user.userAddress)
    ensures !IsUserValid(user)
  {
  }

  lemma BlankEmailInvalid(user: User)
    requires IsBlank(user.userEmail)
    ensures !IsUserValid(user)
  {
  }

  /** Validity is the three non-blank tests together; the account list is ignored. */
  lemma ValidityIsConjunction(user: User, accounts: Option<seq<int>>)
    ensures IsUserValid(user) <==> !IsBlank(user.userID) && !IsBlank(user.userAddress) && !IsBlank(user.userEmail)
    ensures IsUserValid(user.(userAccounts := accounts)) == IsUserValid(user)
  {
  }
}
