/**
  One row of the `users` table and the per-account rules of the
  authentication engine: what a login attempt does to the account it found,
  and what registration decides before inserting a row.
 */
module Accounts {
  import opened Wrappers
  import opened Text
  import opened Policy
  import opened Hasher

  /** Consecutive failures that lock an account. */
  const MaxAttempts: int := 5
  /** Length of a lock, in seconds (15 minutes). */
  const LockoutSeconds: int := 15 * 60

  /** A row of `users`; times are seconds on one clock. */
  datatype Account = Account(
    username: string,
    email: string,
    passwordHash: Digest,
    createdAt: int,
    lastLogin: Option<int>,
    isActive: bool,
    failedAttempts: int,
    lockedUntil: Option<int>)

  /** The answer of `login_user`, one constructor per kind of dictionary it returns. */
  datatype LoginOutcome =
    | MissingCredentials                      // "Email and password are required"
    | AccountNotFound                         // carries user_not_found = True
    | AccountInactive
    | AccountLocked(minutesLeft: int)         // "Try again in {minutesLeft} minutes"
    | VerificationError                       // checkpw raised
    | LockedJustNow                           // "Account locked for 15 minutes."
    | WrongPassword(attemptsLeft: int)        // "{attemptsLeft} attempts remaining."
    | LoggedIn(userId: int, username: string, email: string, lastLogin: int)
  {
    predicate Success() { LoggedIn? }
  }

  /** The account as stored after an attempt, and the answer given. */
  datatype Step = Step(account: Account, outcome: LoginOutcome)

  /** The login query's WHERE clause: `LOWER(email) = ident OR LOWER(username) = ident`. */
  predicate IdentifiedBy(a: Account, ident: string): (r: bool)
    ensures r ==> forall i :: 0 <= i < |ident| ==> !('A' <= ident[i] <= 'Z')
  {
    ToLower(a.email) == ident || ToLower(a.username) == ident
  }

  /**
    An account as registration stores it (trimmed username, trimmed and
    lowered email) is found by its username or its email typed in any letter
    case, with any whitespace around it.
   */
  lemma RegisteredAccountFoundInAnyCase(a: Account, username: string, email: string,
                                        pre: string, typed: string, post: string)
    requires a.username == Trim(username) && a.email == Normalize(email)
    requires ToLower(typed) == ToLower(a.username) || ToLower(typed) == ToLower(a.email)
    requires forall i :: 0 <= i < |pre| ==> IsSpace(pre[i])
    requires forall i :: 0 <= i < |post| ==> IsSpace(post[i])
    ensures IdentifiedBy(a, Normalize(pre + typed + post))
  {
    NormalizeIgnoresPadding(pre, typed, post);
    if ToLower(typed) == ToLower(a.username) {
      NormalizeCaseInsensitive(typed, a.username);
      TrimIdempotent(username);
    } else {
      NormalizeCaseInsensitive(typed, a.email);
      NormalizeIdempotent(email);
      ToLowerIdempotent(Trim(email));
    }
  }

  /** A lock is in force at `now`. */
  predicate LockedAt(a: Account, now: int)
  {
    a.lockedUntil.Some? && now < a.lockedUntil.value
  }

  /**
    What a login attempt with `password` at time `now` does to the account
    `id` it found, checks taken in the source's order: inactive, lock in force,
    expired lock (cleared and persisted before verification), verification
    error, wrong password (count, and lock at the threshold), success.
   */
  function Attempt(id: int, a: Account, password: string, now: int): (r: Step)
    ensures r.account.username == a.username && r.account.email == a.email
    ensures r.account.passwordHash == a.passwordHash && r.account.isActive == a.isActive
    ensures r.account.createdAt == a.createdAt
    ensures r.outcome.Success() <==> a.isActive && !LockedAt(a, now) && CheckPassword(password, a.passwordHash) == Ok(true)
  {
    if !a.isActive then Step(a, AccountInactive)
    else if LockedAt(a, now) then Step(a, AccountLocked((a.lockedUntil.value - now) / 60))
    else
      var b := if a.lockedUntil.Some? then a.(lockedUntil := None, failedAttempts := 0) else a;
      match CheckPassword(password, b.passwordHash)
      case Err(_) => Step(b, VerificationError)
      case Ok(false) =>
        var n := b.failedAttempts + 1;
        if n >= MaxAttempts then
          Step(b.(failedAttempts := n, lockedUntil := Some(now + LockoutSeconds)), LockedJustNow)
        else
          Step(b.(failedAttempts := n), WrongPassword(MaxAttempts - n))
      case Ok(true) =>
        Step(b.(lastLogin := Some(now), failedAttempts := 0, lockedUntil := None),
             LoggedIn(id, b.username, b.email, now))
  }

  /**
    The lock state the engine maintains: unlocked with fewer than five
    failures, or locked with exactly five.
   */
  predicate LockConsistent(a: Account)
  {
    && (a.lockedUntil.None? ==> 0 <= a.failedAttempts < MaxAttempts)
    && (a.lockedUntil.Some? ==> a.failedAttempts == MaxAttempts)
  }

  /** Every attempt keeps the lock state consistent. */
  lemma AttemptKeepsLockConsistent(id: int, a: Account, password: string, now: int)
    requires LockConsistent(a)
    ensures LockConsistent(Attempt(id, a, password, now).account)
  {
  }

  /** An inactive account is refused before anything else is looked at, and is left as it was. */
  lemma InactiveRefused(id: int, a: Account, password: string, now: int)
    requires !a.isActive
    ensures Attempt(id, a, password, now) == Step(a, AccountInactive)
  {
  }

  /**
    While a lock is in force the answer does not depend on the password, the
    account is untouched, and the minutes shown are the remaining time
    truncated to whole minutes.
   */
  lemma LockedRefusesEveryPassword(id: int, a: Account, p: string, q: string, now: int)
    requires a.isActive && LockedAt(a, now)
    ensures Attempt(id, a, p, now) == Attempt(id, a, q, now)
    ensures Attempt(id, a, p, now).account == a
    ensures var m := Attempt(id, a, p, now).outcome;
            && m.AccountLocked?
            && 0 <= m.minutesLeft * 60 <= a.lockedUntil.value - now < (m.minutesLeft + 1) * 60
  {
  }

  /**
    Once a lock has expired the attempt proceeds exactly as for the same
    account with no lock and a count of zero; that cleared state is stored
    even when verification then fails.
   */
  lemma ExpiredLockRestartsCount(id: int, a: Account, password: string, now: int)
    requires a.isActive && a.lockedUntil.Some? && a.lockedUntil.value <= now
    ensures Attempt(id, a, password, now)
         == Attempt(id, a.(lockedUntil := None, failedAttempts := 0), password, now)
  {
  }

  /** A digest `checkpw` cannot read ends the attempt with no change beyond a lazy unlock. */
  lemma MalformedDigestChangesNothing(id: int, a: Account, password: string, now: int)
    requires a.isActive && !LockedAt(a, now) && a.passwordHash.Malformed?
    ensures Attempt(id, a, password, now)
         == Step(if a.lockedUntil.Some? then a.(lockedUntil := None, failedAttempts := 0) else a,
                 VerificationError)
  {
  }

  /**
    A wrong password on an unlocked account stores the count plus one; at
    five it also locks for fifteen minutes, below five it reports the attempts
    left (between 1 and 4 from a consistent state) and leaves the lock absent.
   */
  lemma WrongPasswordCounts(id: int, a: Account, password: string, now: int)
    requires a.isActive && a.lockedUntil.None?
    requires CheckPassword(password, a.passwordHash) == Ok(false)
    ensures var r := Attempt(id, a, password, now);
            var n := a.failedAttempts + 1;
            && r.account == a.(failedAttempts := n,
                               lockedUntil := if n >= MaxAttempts then Some(now + LockoutSeconds) else None)
            && r.outcome == (if n >= MaxAttempts then LockedJustNow else WrongPassword(MaxAttempts - n))
            && (0 <= a.failedAttempts < MaxAttempts - 1 ==> 1 <= r.outcome.attemptsLeft <= 4)
  {
  }

  /**
    The right password on an account with no lock in force records the login
    time, clears the count and the lock, and answers with the stored identity.
   */
  lemma CorrectPasswordLogsIn(id: int, a: Account, password: string, now: int)
    requires a.isActive && !LockedAt(a, now)
    requires CheckPassword(password, a.passwordHash) == Ok(true)
    ensures Attempt(id, a, password, now)
         == Step(a.(lastLogin := Some(now), failedAttempts := 0, lockedUntil := None),
                 LoggedIn(id, a.username, a.email, now))
  {
  }

  /** One login attempt: the password typed and the time it arrives. */
  datatype Try = Try(password: string, time: int)

  /** The account after a series of attempts, each applied to the result of the previous one. */
  function Replay(id: int, a: Account, tries: seq<Try>): Account
  {
    if tries == [] then a
    else
      var last := tries[|tries| - 1];
      Attempt(id, Replay(id, a, tries[..|tries| - 1]), last.password, last.time).account
  }

  /** All attempts use a password the account's digest rejects. */
  predicate AllWrong(a: Account, tries: seq<Try>)
  {
    forall i :: 0 <= i < |tries| ==> CheckPassword(tries[i].password, a.passwordHash) == Ok(false)
  }

  /**
    From an active unlocked account with count `c`, `k` consecutive wrong
    passwords with `c + k <= 5` leave the count at `c + k`; the lock stays
    absent while the count is below five.
   */
  lemma {:induction false} ConsecutiveFailures(id: int, a: Account, tries: seq<Try>)
    requires a.isActive && a.lockedUntil.None? && 0 <= a.failedAttempts
    requires a.failedAttempts + |tries| <= MaxAttempts
    requires AllWrong(a, tries)
    ensures var b := Replay(id, a, tries);
            && b.failedAttempts == a.failedAttempts + |tries|
            && (b.failedAttempts < MaxAttempts ==> b.lockedUntil.None?)
            && b.passwordHash == a.passwordHash && b.isActive
            && b.username == a.username && b.email == a.email
  {
    if tries != [] {
      var init := tries[..|tries| - 1];
      assert AllWrong(a, init) by {
        forall i | 0 <= i < |init| ensures CheckPassword(init[i].password, a.passwordHash) == Ok(false) {
          assert init[i] == tries[i];
        }
      }
      ConsecutiveFailures(id, a, init);
      var last := tries[|tries| - 1];
      WrongPasswordCounts(id, Replay(id, a, init), last.password, last.time);
    }
  }

  /**
    The k-th consecutive wrong password (k < 5) from a fresh count reports
    `5 - k` attempts left, and the fifth locks the account until fifteen
    minutes after it.
   */
  lemma FailureMessages(id: int, a: Account, tries: seq<Try>, wrong: Try)
    requires a.isActive && a.lockedUntil.None? && a.failedAttempts == 0
    requires |tries| < MaxAttempts
    requires AllWrong(a, tries + [wrong])
    ensures var r := Attempt(id, Replay(id, a, tries), wrong.password, wrong.time);
            && r.account.failedAttempts == |tries| + 1
            && (|tries| + 1 < MaxAttempts ==> r.outcome == WrongPassword(MaxAttempts - (|tries| + 1)))
            && (|tries| + 1 == MaxAttempts ==>
                  r.outcome == LockedJustNow && r.account.lockedUntil == Some(wrong.time + LockoutSeconds))
  {
    assert AllWrong(a, tries) by {
      forall i | 0 <= i < |tries| ensures CheckPassword(tries[i].password, a.passwordHash) == Ok(false) {
        assert (tries + [wrong])[i] == tries[i];
      }
    }
    assert (tries + [wrong])[|tries|] == wrong;
    ConsecutiveFailures(id, a, tries);
    WrongPasswordCounts(id, Replay(id, a, tries), wrong.password, wrong.time);
  }

  /**
    Five consecutive wrong passwords from a fresh count lock the account:
    until the lock expires every further attempt, with any password, is refused.
   */
  lemma FiveFailuresLock(id: int, a: Account, tries: seq<Try>, next: Try)
    requires a.isActive && a.lockedUntil.None? && a.failedAttempts == 0
    requires |tries| == MaxAttempts && AllWrong(a, tries)
    requires next.time < tries[|tries| - 1].time + LockoutSeconds
    ensures Attempt(id, Replay(id, a, tries), next.password, next.time).outcome.AccountLocked?
  {
    var init := tries[..|tries| - 1];
    assert init + [tries[|tries| - 1]] == tries;
    FailureMessages(id, a, init, tries[|tries| - 1]);
  }

  /** Why registration refused, in the order the checks run. */
  datatype RegisterError =
    | UsernameTooShort
    | InvalidEmail
    | EmptyPassword
    | WeakPassword
    | UsernameTaken
    | EmailTaken

  /** `SELECT 1 FROM users WHERE username = ?`: an exact, case-sensitive match. */
  predicate UsernameInUse(users: map<int, Account>, username: string)
  {
    exists id :: id in users && users[id].username == username
  }

  /** `SELECT 1 FROM users WHERE email = ?`. */
  predicate EmailInUse(users: map<int, Account>, email: string)
  {
    exists id :: id in users && users[id].email == email
  }

  /**
    The first rule a registration breaks, given the trimmed username, the
    trimmed and lowered email and the password; None when it may proceed.
   */
  function RegistrationError(users: map<int, Account>, username: string, email: string, password: string)
    : (r: Option<RegisterError>)
    ensures r == Some(UsernameTooShort) <==> |username| < 3
    ensures r == Some(InvalidEmail) <==> |username| >= 3 && !IsValidEmail(email)
    ensures r == Some(EmptyPassword) <==> |username| >= 3 && IsValidEmail(email) && password == []
    ensures r == Some(WeakPassword)
       <==> |username| >= 3 && IsValidEmail(email) && password != [] && !IsStrongPassword(password)
    ensures r == Some(UsernameTaken)
       <==> |username| >= 3 && IsValidEmail(email) && IsStrongPassword(password) && UsernameInUse(users, username)
    ensures r == Some(EmailTaken)
       <==> && |username| >= 3 && IsValidEmail(email) && IsStrongPassword(password)
            && !UsernameInUse(users, username) && EmailInUse(users, email)
    ensures r == None
       <==> && |username| >= 3 && IsValidEmail(email) && IsStrongPassword(password)
            && !UsernameInUse(users, username) && !EmailInUse(users, email)
  {
    if |username| < 3 then Some(UsernameTooShort)
    else if email == [] || !IsValidEmail(email) then Some(InvalidEmail)
    else if password == [] then Some(EmptyPassword)
    else if !IsStrongPassword(password) then Some(WeakPassword)
    else if UsernameInUse(users, username) then Some(UsernameTaken)
    else if EmailInUse(users, email) then Some(EmailTaken)
    else None
  }

  /**
    Username uniqueness is checked case-sensitively while login matches
    case-insensitively: a username differing from a stored one only in letter
    case is accepted, and afterwards one lowered identifier matches both rows.
   */
  lemma CaseVariantUsernamesShareIdentifier(users: map<int, Account>, id: int, username: string,
                                             email: string, password: string, digest: Digest, now: int)
    requires id in users && !UsernameInUse(users, username) && !EmailInUse(users, email)
    requires ToLower(users[id].username) == ToLower(username)
    requires |username| >= 3 && IsValidEmail(email) && IsStrongPassword(password)
    ensures RegistrationError(users, username, email, password) == None
    ensures users[id].username != username
    ensures IdentifiedBy(users[id], ToLower(username))
    ensures IdentifiedBy(NewAccount(username, email, digest, now), ToLower(username))
  {
  }

  /** The row `INSERT INTO users (username, email, password_hash)` creates, with the schema's defaults. */
  function NewAccount(username: string, email: string, digest: Digest, now: int): (a: Account)
    ensures LockConsistent(a) && a.isActive && a.failedAttempts == 0 && a.lastLogin.None?
  {
    Account(username, email, digest, now, None, true, 0, None)
  }

  /**
    A freshly registered account logs in with the password it was registered
    with, and counts a first failure for any other.
   */
  lemma RegisteredAccountAuthenticates(id: int, username: string, email: string, password: string,
                                       salt: nat, created: int, other: string, now: int)
    requires other != password
    ensures var a := NewAccount(username, email, HashPassword(password, salt), created);
            && Attempt(id, a, password, now).outcome == LoggedIn(id, username, email, now)
            && Attempt(id, a, other, now).outcome == WrongPassword(MaxAttempts - 1)
            && Attempt(id, a, other, now).account.failedAttempts == 1
  {
    var a := NewAccount(username, email, HashPassword(password, salt), created);
    CorrectPasswordLogsIn(id, a, password, now);
    WrongPasswordCounts(id, a, other, now);
  }
}
