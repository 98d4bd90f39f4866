/** The account-lockout state machine inside `AuthService.login`
    (src/modules/auth/auth.service.ts, lines 34-74), factored into a pure
    decision: from the stored user, whether the password matched and the
    current time, it yields the partial update `login` writes with
    `findByIdAndUpdate` and the outcome it returns or throws. */
module Lockout {
  import opened Wrappers
  import opened UserSchema
  import opened AuthErrors
  import opened UserStore

  /** Failures tolerated before the next one within the window locks. */
  const MaxFailedAttempts: int := 3

  /** Five minutes in milliseconds: `diffTime < 5` with `diffTime` in minutes. */
  const LockWindowMillis: int := 5 * 60 * 1000

  datatype LoginOutcome = Authenticated | Rejected(error: Exception)

  datatype Decision = Decision(patch: Patch, outcome: LoginOutcome)

  /** The elapsed-time test of line 63 on integer milliseconds. */
  predicate WithinWindow(start: Millis, now: Millis) {
    now - start < LockWindowMillis
  }

  /** The branches of `login` after the user has been found, in source order. */
  function Decide(u: User, isMatch: bool, now: Millis): (d: Decision)
    ensures d.outcome == Authenticated <==> !IsLocked(u) && isMatch
  {
    if IsLocked(u) then
      Decision(NoChange, Rejected(Unauthorized(EmailHasBeenLocked)))
    else if isMatch then
      Decision(Patch(Some(0), Some(None), None), Authenticated)
    else if u.failedLoginAttempts == 0 then
      Decision(Patch(Some(1), Some(Some(now)), None), Rejected(Unauthorized(EmailOrPasswordIsIncorrect)))
    else if u.failedLoginAttempts < MaxFailedAttempts then
      Decision(Patch(Some(u.failedLoginAttempts + 1), None, None), Rejected(Unauthorized(EmailOrPasswordIsIncorrect)))
    else if u.failedLoginTime.None? then
      Decision(NoChange, Rejected(TypeError))
    else if WithinWindow(u.failedLoginTime.value, now) then
      Decision(Patch(None, None, Some(true)), Rejected(Unauthorized(EmailHasBeenLocked)))
    else
      Decision(Patch(Some(1), Some(Some(now)), None), Rejected(Unauthorized(EmailOrPasswordIsIncorrect)))
  }

  /** The document after one login attempt on it. */
  function Next(u: User, isMatch: bool, now: Millis): (v: User)
    ensures v.id == u.id && v.email == u.email && v.password == u.password
    ensures v.firstName == u.firstName && v.lastName == u.lastName
  {
    Apply(u, Decide(u, isMatch, now).patch)
  }

  // ---------------------------------------------------------------------
  // One transition at a time

  /** `diffTime` is computed in minutes; on exact reals the minute test and
      the millisecond test agree. */
  lemma WindowIsFiveMinutes(start: Millis, now: Millis)
    ensures WithinWindow(start, now) <==> ((now - start) as real) / 60000.0 < 5.0
  {
  }

  /** A locked user is rejected as locked before the password is considered,
      whatever the password and the time, and nothing is written. */
  lemma LockedIsAbsorbing(u: User, isMatch: bool, now: Millis)
    requires IsLocked(u)
    ensures Decide(u, isMatch, now) == Decision(NoChange, Rejected(Unauthorized(EmailHasBeenLocked)))
    ensures Next(u, isMatch, now) == u
  {
  }

  /** A correct password on an unlocked user clears the failure streak and
      changes nothing else. */
  lemma SuccessResets(u: User, now: Millis)
    requires !IsLocked(u)
    ensures Decide(u, true, now).outcome == Authenticated
    ensures Next(u, true, now) == u.(failedLoginAttempts := 0, failedLoginTime := None)
  {
  }

  /** The first wrong password of a streak anchors the window at `now`. */
  lemma FirstFailureStartsStreak(u: User, now: Millis)
    requires !IsLocked(u) && u.failedLoginAttempts == 0
    ensures Decide(u, false, now).outcome == Rejected(Unauthorized(EmailOrPasswordIsIncorrect))
    ensures Next(u, false, now) == u.(failedLoginAttempts := 1, failedLoginTime := Some(now))
  {
  }

  /** Within a streak each wrong password adds exactly one failure and keeps
      the anchor. */
  lemma FailureWithinStreakCounts(u: User, now: Millis)
    requires !IsLocked(u) && 0 < u.failedLoginAttempts < MaxFailedAttempts
    ensures Decide(u, false, now).outcome == Rejected(Unauthorized(EmailOrPasswordIsIncorrect))
    ensures Next(u, false, now) == u.(failedLoginAttempts := u.failedLoginAttempts + 1)
  {
  }

  /** At the threshold, a wrong password inside the window locks and leaves
      the counters as they were. */
  lemma QuickFailureAtThresholdLocks(u: User, now: Millis)
    requires !IsLocked(u) && u.failedLoginAttempts >= MaxFailedAttempts
    requires u.failedLoginTime.Some? && WithinWindow(u.failedLoginTime.value, now)
    ensures Decide(u, false, now).outcome == Rejected(Unauthorized(EmailHasBeenLocked))
    ensures Next(u, false, now) == u.(locked := Some(true))
  {
  }

  /** At the threshold, a wrong password after the window restarts the
      streak at `now` instead of locking. */
  lemma StaleFailureRestartsStreak(u: User, now: Millis)
    requires !IsLocked(u) && u.failedLoginAttempts >= MaxFailedAttempts
    requires u.failedLoginTime.Some? && !WithinWindow(u.failedLoginTime.value, now)
    ensures Decide(u, false, now).outcome == Rejected(Unauthorized(EmailOrPasswordIsIncorrect))
    ensures Next(u, false, now) == u.(failedLoginAttempts := 1, failedLoginTime := Some(now))
    ensures !IsLocked(Next(u, false, now))
  {
  }

  /** Every attempt on a well-formed user leaves it well-formed and never
      reaches the missing-time dereference. */
  lemma NextPreservesWellFormed(u: User, isMatch: bool, now: Millis)
    requires WellFormed(u)
    ensures WellFormed(Next(u, isMatch, now))
    ensures Decide(u, isMatch, now).outcome != Rejected(TypeError)
  {
  }

  /** The locked flag is only ever set, never cleared, by login. */
  lemma LockIsSticky(u: User, isMatch: bool, now: Millis)
    ensures IsLocked(u) ==> IsLocked(Next(u, isMatch, now))
    ensures IsLocked(Next(u, isMatch, now)) && !IsLocked(u) ==>
              !isMatch && u.failedLoginAttempts >= MaxFailedAttempts
              && u.failedLoginTime.Some? && WithinWindow(u.failedLoginTime.value, now)
  {
  }

  /** The rejection for a locked account is the same whether or not the
      password was right, so it does not reveal the password. */
  lemma LockedHidesPassword(u: User, now: Millis)
    requires IsLocked(u)
    ensures Decide(u, true, now) == Decide(u, false, now)
  {
  }

  // ---------------------------------------------------------------------
  // Runs of attempts

  /** One login attempt: whether the submitted password matched, and when. */
  datatype Attempt = Attempt(isMatch: bool, now: Millis)

  /** The document after a sequence of attempts, oldest first. */
  function Run(u: User, trace: seq<Attempt>): (v: User)
    ensures v.id == u.id && v.email == u.email && v.password == u.password
    ensures v.firstName == u.firstName && v.lastName == u.lastName
    decreases |trace|
  {
    if trace == [] then u
    else
      var last := trace[|trace| - 1];
      Next(Run(u, trace[..|trace| - 1]), last.isMatch, last.now)
  }

  /** The streak a document records is the tail of the run: starting from a
      clean user, an unlocked user with `k > 0` failures has seen exactly its
      last `k` attempts fail, and its window is anchored at the first of them. */
  lemma {:induction false} StreakIsTailOfRun(u0: User, trace: seq<Attempt>)
    requires IsClean(u0)
    ensures WellFormed(Run(u0, trace))
    ensures Run(u0, trace).failedLoginAttempts <= |trace|
    ensures var u := Run(u0, trace);
      !IsLocked(u) && u.failedLoginAttempts > 0 ==>
        && (forall i :: |trace| - u.failedLoginAttempts <= i < |trace| ==> !trace[i].isMatch)
        && u.failedLoginTime == Some(trace[|trace| - u.failedLoginAttempts].now)
  {
    if trace != [] {
      var prefix := trace[..|trace| - 1];
      var last := trace[|trace| - 1];
      StreakIsTailOfRun(u0, prefix);
      var v := Run(u0, prefix);
      NextPreservesWellFormed(v, last.isMatch, last.now);
      assert forall i :: 0 <= i < |prefix| ==> prefix[i] == trace[i];
    }
  }

  /** A user that started clean is locked only after four wrong passwords in
      a row, the last of which came less than five minutes after the first;
      just before that last one the user was unlocked at the threshold. */
  lemma {:induction false} LockNeedsQuickStreak(u0: User, trace: seq<Attempt>)
    requires IsClean(u0)
    requires IsLocked(Run(u0, trace))
    ensures exists j :: MaxFailedAttempts <= j < |trace| && LocksAt(u0, trace, j)
  {
    var prefix := trace[..|trace| - 1];
    var last := trace[|trace| - 1];
    var v := Run(u0, prefix);
    assert forall i :: 0 <= i < |prefix| ==> prefix[i] == trace[i];
    if IsLocked(v) {
      LockNeedsQuickStreak(u0, prefix);
      var j :| MaxFailedAttempts <= j < |prefix| && LocksAt(u0, prefix, j);
      assert trace[..j] == prefix[..j];
      assert LocksAt(u0, trace, j);
    } else {
      StreakIsTailOfRun(u0, prefix);
      LockIsSticky(v, last.isMatch, last.now);
      var j := |trace| - 1;
      assert trace[..j] == prefix;
      assert LocksAt(u0, trace, j);
    }
  }

  /** Attempt `j` of the run is the one that locks: it and the three before
      it failed, it came less than five minutes after the first of them, and
      the user was unlocked with three failures when it arrived. */
  ghost predicate LocksAt(u0: User, trace: seq<Attempt>, j: int)
    requires MaxFailedAttempts <= j < |trace|
  {
    && (forall i :: j - MaxFailedAttempts <= i <= j ==> !trace[i].isMatch)
    && WithinWindow(trace[j - MaxFailedAttempts].now, trace[j].now)
    && !IsLocked(Run(u0, trace[..j]))
    && Run(u0, trace[..j]).failedLoginAttempts == MaxFailedAttempts
  }

  /** From a clean user, three wrong passwords are answered "incorrect" and a
      fourth one within five minutes of the first is answered "locked". */
  lemma ThreeQuickFailuresThenLocked(u0: User, t1: Millis, t2: Millis, t3: Millis, t4: Millis)
    requires IsClean(u0)
    requires WithinWindow(t1, t4)
    ensures var u1 := Next(u0, false, t1);
            var u2 := Next(u1, false, t2);
            var u3 := Next(u2, false, t3);
            && Decide(u0, false, t1).outcome == Rejected(Unauthorized(EmailOrPasswordIsIncorrect))
            && Decide(u1, false, t2).outcome == Rejected(Unauthorized(EmailOrPasswordIsIncorrect))
            && Decide(u2, false, t3).outcome == Rejected(Unauthorized(EmailOrPasswordIsIncorrect))
            && Decide(u3, false, t4).outcome == Rejected(Unauthorized(EmailHasBeenLocked))
            && IsLocked(Next(u3, false, t4))
  {
  }

  /** From a clean user, a fourth wrong password five minutes or more after
      the first of three restarts the streak instead of locking. */
  lemma SlowFourthFailureRestarts(u0: User, t1: Millis, t2: Millis, t3: Millis, t4: Millis)
    requires IsClean(u0)
    requires !WithinWindow(t1, t4)
    ensures var u3 := Next(Next(Next(u0, false, t1), false, t2), false, t3);
            && Decide(u3, false, t4).outcome == Rejected(Unauthorized(EmailOrPasswordIsIncorrect))
            && !IsLocked(Next(u3, false, t4))
            && Next(u3, false, t4).failedLoginAttempts == 1
            && Next(u3, false, t4).failedLoginTime == Some(t4)
  {
  }
}
