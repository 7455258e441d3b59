/** The lock set-up page (src/pages/LockSetup.tsx): two guards on the chosen
    password and its confirmation, then one write of the password. */
module LockSetup {
  import opened Common
  import opened Db

  datatype SetupError = TooShort | Mismatch

  const MinPasswordLength := 4

  /** The guards of `handleSetup`, length first. */
  function ValidateSetup(password: string, confirmation: string): (r: Option<SetupError>)
    ensures r == None <==> |password| >= MinPasswordLength && password == confirmation
    ensures r == Some(TooShort) <==> |password| < MinPasswordLength
    ensures r == Some(Mismatch) <==> |password| >= MinPasswordLength && password != confirmation
  {
    if |password| < MinPasswordLength then Some(TooShort)
    else if password != confirmation then Some(Mismatch)
    else None
  }

  /** `handleSetup`. A refused pair stores nothing. An accepted password is
      stored as the lock password, after which the app counts as locked and
      exactly that password unlocks it. */
  method HandleSetup(db: LocalDb, password: string, confirmation: string) returns (r: Option<SetupError>)
    modifies db
    ensures r == ValidateSetup(password, confirmation)
    ensures db.entries == old(db.entries)
    ensures r.Some? ==> db.settings == old(db.settings)
    ensures r.None? ==>
      && db.settings == old(db.settings)[LockPasswordKey := Text(password)]
      && db.IsLockSetup()
      && forall q :: db.VerifyLockPassword(q) <==> q == password
  {
    r := ValidateSetup(password, confirmation);
    if r.Some? {
      return;
    }
    db.SetLockPassword(password);
  }
}
