/** The login lockout state machine of one account: a lock blocks every
    attempt until it expires, an expired lock gives fresh tries, a correct
    password clears the counter, and the tenth consecutive wrong password
    locks the account for one minute. */
module Lockout {
  import opened Records

  /** Consecutive failures that trigger a lock. */
  const LockThreshold: nat := 10
  /** Length of a lock in milliseconds (one minute). */
  const LockMillis: nat := 60000

  datatype LoginOutcome =
    | MaintenanceRefused   // maintenance mode and the username is not the Librarian's
    | UnknownAccount       // no account with that username, or it is deleted
    | Blocked              // the account is locked
    | WrongPassword        // the failure was counted
    | LockedOut            // the failure was counted and locked the account
    | LoggedIn

  /** `user.lockUntil` is truthy: a non-zero timestamp. */
  predicate LockSet(a: Account)
  {
    a.lockUntil.Some? && a.lockUntil.value != 0
  }

  /** `user.lockUntil && user.lockUntil > now` */
  predicate Locked(a: Account, now: int)
  {
    LockSet(a) && a.lockUntil.value > now
  }

  /** `user.lockUntil && user.lockUntil < now` */
  predicate LockExpired(a: Account, now: int)
  {
    LockSet(a) && a.lockUntil.value < now
  }

  /** Counter invariant: the consecutive-failure counter stays below the
      threshold and never exceeds the lifetime failure counter. */
  predicate CountersValid(a: Account)
  {
    a.failedLoginAttempts < LockThreshold && a.failedLoginAttempts <= a.totalFailedAttempts
  }

  datatype Step = Step(account: Account, outcome: LoginOutcome)

  /** The net effect of one login attempt on an existing, non-deleted account,
      given the outcome of the password comparison and the clock. */
  function Attempt(a: Account, isMatch: bool, now: int): (s: Step)
    ensures s.outcome == Blocked <==> Locked(a, now)
    ensures Locked(a, now) ==> s.account == a
    ensures s.outcome == LoggedIn <==> !Locked(a, now) && isMatch
    ensures s.outcome == LoggedIn ==> s.account == a.(failedLoginAttempts := 0, lockUntil := None)
    ensures !Locked(a, now) && !isMatch ==>
              s.outcome in {WrongPassword, LockedOut} && s.account.totalFailedAttempts == a.totalFailedAttempts + 1
    ensures s.outcome == WrongPassword ==>
              s.account.failedLoginAttempts == (if LockExpired(a, now) then 0 else a.failedLoginAttempts) + 1
              && s.account.lockUntil == (if LockExpired(a, now) then None else a.lockUntil)
    ensures s.outcome == LockedOut ==>
              s.account.failedLoginAttempts == 0 && s.account.lockUntil == Some(now + LockMillis)
    ensures !Locked(a, now) && !isMatch ==>
              (s.outcome == LockedOut <==> (if LockExpired(a, now) then 0 else a.failedLoginAttempts) + 1 >= LockThreshold)
    ensures LockExpired(a, now) && !isMatch ==>
              s.outcome == WrongPassword && s.account.failedLoginAttempts == 1 && s.account.lockUntil == None
    ensures s.account == a.(failedLoginAttempts := s.account.failedLoginAttempts,
                            totalFailedAttempts := s.account.totalFailedAttempts,
                            lockUntil := s.account.lockUntil)
    ensures CountersValid(a) ==> CountersValid(s.account)
  {
    if Locked(a, now) then Step(a, Blocked)
    else
      var expired := LockExpired(a, now);
      var failures := if expired then 0 else a.failedLoginAttempts;
      var lock := if expired then None else a.lockUntil;
      if isMatch then
        Step(a.(failedLoginAttempts := 0, lockUntil := None), LoggedIn)
      else if failures + 1 >= LockThreshold then
        Step(a.(failedLoginAttempts := 0, totalFailedAttempts := a.totalFailedAttempts + 1,
                lockUntil := Some(now + LockMillis)), LockedOut)
      else
        Step(a.(failedLoginAttempts := failures + 1, totalFailedAttempts := a.totalFailedAttempts + 1,
                lockUntil := lock), WrongPassword)
  }

  /** One login attempt: the password comparison outcome and the clock. */
  datatype Try = Try(isMatch: bool, now: int)

  /** The account after a series of attempts, in order. */
  function Replay(a: Account, tries: seq<Try>): Account
  {
    if tries == [] then a
    else Attempt(Replay(a, tries[..|tries| - 1]), tries[|tries| - 1].isMatch, tries[|tries| - 1].now).account
  }

  /** While a lock is in force, any number of attempts change nothing. */
  lemma {:induction false} LockedAttemptsChangeNothing(a: Account, tries: seq<Try>)
    requires LockSet(a)
    requires forall i :: 0 <= i < |tries| ==> tries[i].now < a.lockUntil.value
    ensures Replay(a, tries) == a
    decreases |tries|
  {
    if tries != [] {
      LockedAttemptsChangeNothing(a, tries[..|tries| - 1]);
    }
  }

  /** Without a lock, wrong passwords below the threshold are counted one by one. */
  lemma {:induction false} FailuresAccumulate(a: Account, tries: seq<Try>)
    requires !LockSet(a)
    requires forall i :: 0 <= i < |tries| ==> !tries[i].isMatch
    requires a.failedLoginAttempts + |tries| < LockThreshold
    ensures Replay(a, tries) == a.(failedLoginAttempts := a.failedLoginAttempts + |tries|,
                                   totalFailedAttempts := a.totalFailedAttempts + |tries|)
    decreases |tries|
  {
    if tries != [] {
      FailuresAccumulate(a, tries[..|tries| - 1]);
    }
  }

  /** ... and the failure that reaches the threshold locks the account for
      LockMillis from that attempt and restarts the counter. */
  lemma ThresholdFailureLocks(a: Account, tries: seq<Try>, now: int)
    requires !LockSet(a)
    requires forall i :: 0 <= i < |tries| ==> !tries[i].isMatch
    requires a.failedLoginAttempts + |tries| + 1 == LockThreshold
    ensures Attempt(Replay(a, tries), false, now) ==
            Step(a.(failedLoginAttempts := 0,
                    totalFailedAttempts := a.totalFailedAttempts + |tries| + 1,
                    lockUntil := Some(now + LockMillis)), LockedOut)
  {
    FailuresAccumulate(a, tries);
  }
}
