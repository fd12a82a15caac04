/**
  The `users` table and the three operations of the account service that
  change it: `register_user`, `login_user` and `delete_user`.
 */
module UserStore {
  import opened Wrappers
  import opened Text
  import opened Policy
  import opened Hasher
  import opened Accounts

  /** The answer of `register_user`. */
  datatype RegisterResult = Registered | Rejected(reason: RegisterError)

  /** The answer of `delete_user`. */
  datatype DeleteResult = Deleted | IdRequired

  /** `if not user_id`: an absent id and the id 0 are both refused. */
  predicate IsFalsyId(userId: Option<int>)
  {
    userId.None? || userId.value == 0
  }

  /**
    The login attempt on row `id` was carried out: `after` is `before` with
    that row replaced by its state after `Attempt`, and `res` is its answer.
   */
  ghost predicate Served(before: map<int, Account>, after: map<int, Account>, id: int,
                         password: string, now: int, res: LoginOutcome)
  {
    && id in before
    && var step := Attempt(id, before[id], password, now);
    && res == step.outcome
    && after == before[id := step.account]
  }

  ghost predicate AllLockConsistent(users: map<int, Account>)
  {
    forall id :: id in users ==> LockConsistent(users[id])
  }

  /** A served login attempt keeps every account's lock state consistent. */
  lemma ServedKeepsLockConsistent(before: map<int, Account>, after: map<int, Account>, id: int,
                                  password: string, now: int, res: LoginOutcome)
    requires Served(before, after, id, password, now, res)
    ensures AllLockConsistent(before) ==> AllLockConsistent(after)
  {
    if AllLockConsistent(before) {
      AttemptKeepsLockConsistent(id, before[id], password, now);
    }
  }

  lemma UpdateSame(m: map<int, Account>, k: int)
    requires k in m
    ensures m[k := m[k]] == m
  {
  }

  lemma UpdateTwice(m: map<int, Account>, k: int, a: Account, b: Account)
    ensures m[k := a][k := b] == m[k := b]
  {
  }

  /** The `users` table: rows keyed by `user_id`, and the next AUTOINCREMENT value. */
  class UserTable {
    var users: map<int, Account>
    var nextId: int

    /**
      The table's own constraints: AUTOINCREMENT ids start at 1 and are never
      reused, and the UNIQUE columns `username` and `email` never repeat.
     */
    ghost predicate Valid()
      reads this
    {
      && 1 <= nextId
      && (forall id :: id in users ==> 1 <= id < nextId)
      && (forall i, j :: i in users && j in users && i != j ==> users[i].username != users[j].username)
      && (forall i, j :: i in users && j in users && i != j ==> users[i].email != users[j].email)
    }

    /** Every account is in the lock state the engine maintains. */
    ghost predicate LockStatesConsistent()
      reads this
    {
      AllLockConsistent(users)
    }

    /** `create_tables()`: an empty table. */
    constructor ()
      ensures Valid() && LockStatesConsistent()
      ensures users == map[] && nextId == 1
    {
      users := map[];
      nextId := 1;
    }

    /**
      `UPDATE users SET ... WHERE user_id = ?` for the columns the engine
      writes: the row is replaced, its username and email stay as they were.
     */
    method Update(id: int, a: Account)
      requires Valid() && id in users
      requires a.username == users[id].username && a.email == users[id].email
      modifies this
      ensures Valid() && nextId == old(nextId)
      ensures users == old(users)[id := a]
    {
      users := users[id := a];
    }

    /**
      `INSERT INTO users`: the row gets the next AUTOINCREMENT id; the UNIQUE
      constraints hold because neither the username nor the email is taken.
     */
    method Insert(a: Account)
      requires Valid()
      requires !UsernameInUse(users, a.username) && !EmailInUse(users, a.email)
      modifies this
      ensures Valid()
      ensures old(nextId) !in old(users)
      ensures users == old(users)[old(nextId) := a] && nextId == old(nextId) + 1
      ensures old(LockStatesConsistent()) && LockConsistent(a) ==> LockStatesConsistent()
    {
      users := users[nextId := a];
      nextId := nextId + 1;
    }

    /**
      The login query: some row whose lowered email or username equals the
      normalised identifier. SQLite gives no order without ORDER BY, so any
      matching row may be the one fetched.
     */
    method FindByIdentifier(ident: string) returns (found: Option<int>)
      ensures found.None? <==> forall id :: id in users ==> !IdentifiedBy(users[id], ident)
      ensures found.Some? ==> found.value in users && IdentifiedBy(users[found.value], ident)
    {
      if id :| id in users && IdentifiedBy(users[id], ident) {
        found := Some(id);
      } else {
        found := None;
      }
    }

    /**
      `login_user(identifier, password)` at time `now`. Empty credentials and
      an unknown identifier change nothing; otherwise exactly the account the
      lookup found is replaced by its state after `Attempt`, and the answer is
      the one `Attempt` gives.
     */
    method Login(identifier: Option<string>, password: Option<string>, now: int)
      returns (res: LoginOutcome)
      requires Valid()
      modifies this
      ensures Valid() && nextId == old(nextId)
      ensures old(LockStatesConsistent()) ==> LockStatesConsistent()
      ensures var ident := Normalize(OrEmpty(identifier));
              var pw := OrEmpty(password);
              if ident == [] || pw == [] then
                res == MissingCredentials && users == old(users)
              else if forall id :: id in old(users) ==> !IdentifiedBy(old(users)[id], ident) then
                res == AccountNotFound && users == old(users)
              else
                exists id :: id in old(users) && IdentifiedBy(old(users)[id], ident)
                  && Served(old(users), users, id, pw, now, res)
    {
      var ident := Normalize(OrEmpty(identifier));
      var pw := OrEmpty(password);
      if ident == [] || pw == [] {
        return MissingCredentials;
      }
      var found := FindByIdentifier(ident);
      if found.None? {
        return AccountNotFound;
      }
      ghost var before := users;
      res := Authenticate(found.value, pw, now);
      ServedKeepsLockConsistent(before, users, found.value, pw, now, res);
    }

    /**
      The body of `login_user` once the row `id` has been fetched: the
      inactive check, the lock check with its lazy unlock, verification, and
      the counter, lock and last-login writes, each persisted as it happens.
     */
    method Authenticate(id: int, pw: string, now: int) returns (res: LoginOutcome)
      requires Valid() && id in users
      modifies this
      ensures Valid() && nextId == old(nextId)
      ensures Served(old(users), users, id, pw, now, res)
    {
      ghost var before := users;
      var account := users[id];
      if !account.isActive {
        InactiveRefused(id, before[id], pw, now);
        UpdateSame(before, id);
        return AccountInactive;
      }
      var failedAttempts := account.failedAttempts;
      if account.lockedUntil.Some? {
        var until := account.lockedUntil.value;
        if now < until {
          UpdateSame(before, id);
          return AccountLocked((until - now) / 60);
        }
        // The expired lock is cleared and written back before verification.
        account := account.(lockedUntil := None, failedAttempts := 0);
        Update(id, account);
        failedAttempts := 0;
        ExpiredLockRestartsCount(id, before[id], pw, now);
        assert users == before[id := account];
      } else {
        UpdateSame(before, id);
        assert users == before[id := account];
      }
      // Whichever way the lock check went, the table holds `account` at `id`,
      // and the attempt continues exactly as `Attempt` does from `account`.
      assert Attempt(id, before[id], pw, now) == Attempt(id, account, pw, now);
      var check := CheckPassword(pw, account.passwordHash);
      if check.Err? {
        MalformedDigestChangesNothing(id, account, pw, now);
        return VerificationError;
      }
      if !check.value {
        WrongPasswordCounts(id, account, pw, now);
        var newFailedAttempts := failedAttempts + 1;
        if newFailedAttempts >= MaxAttempts {
          Update(id, account.(failedAttempts := newFailedAttempts,
                              lockedUntil := Some(now + LockoutSeconds)));
          res := LockedJustNow;
        } else {
          Update(id, account.(failedAttempts := newFailedAttempts));
          res := WrongPassword(MaxAttempts - newFailedAttempts);
        }
        UpdateTwice(before, id, account, users[id]);
        return;
      }
      CorrectPasswordLogsIn(id, account, pw, now);
      Update(id, account.(lastLogin := Some(now), failedAttempts := 0, lockedUntil := None));
      UpdateTwice(before, id, account, users[id]);
      res := LoggedIn(id, account.username, account.email, now);
    }

    /**
      `register_user(username, email, password)`: on the first broken rule the
      table is unchanged; otherwise one new row with the next id, the trimmed
      username, the trimmed and lowered email, a digest of the password made
      with `salt`, and the schema defaults.
     */
    method Register(username: Option<string>, email: Option<string>, password: Option<string>,
                    salt: nat, now: int)
      returns (res: RegisterResult)
      requires Valid()
      modifies this
      ensures Valid()
      ensures old(LockStatesConsistent()) ==> LockStatesConsistent()
      ensures var u := Trim(OrEmpty(username));
              var e := Normalize(OrEmpty(email));
              var p := OrEmpty(password);
              match RegistrationError(old(users), u, e, p)
              case Some(reason) =>
                res == Rejected(reason) && users == old(users) && nextId == old(nextId)
              case None =>
                && res == Registered
                && old(nextId) !in old(users)
                && users == old(users)[old(nextId) := NewAccount(u, e, HashPassword(p, salt), now)]
                && nextId == old(nextId) + 1
    {
      var u := Trim(OrEmpty(username));
      var e := Normalize(OrEmpty(email));
      var p := OrEmpty(password);
      if |u| < 3 {
        return Rejected(UsernameTooShort);
      }
      if e == [] || !IsValidEmail(e) {
        return Rejected(InvalidEmail);
      }
      if p == [] {
        return Rejected(EmptyPassword);
      }
      if !IsStrongPassword(p) {
        return Rejected(WeakPassword);
      }
      if UsernameInUse(users, u) {
        return Rejected(UsernameTaken);
      }
      if EmailInUse(users, e) {
        return Rejected(EmailTaken);
      }
      var digest := HashPassword(p, salt);
      Insert(NewAccount(u, e, digest, now));
      res := Registered;
    }

    /**
      `delete_user(user_id)`: a falsy id is refused and nothing changes;
      otherwise the row is gone afterwards, whether or not it existed, and
      every other row is kept.
     */
    method Delete(userId: Option<int>) returns (res: DeleteResult)
      requires Valid()
      modifies this
      ensures Valid() && nextId == old(nextId)
      ensures old(LockStatesConsistent()) ==> LockStatesConsistent()
      ensures IsFalsyId(userId) ==> res == IdRequired && users == old(users)
      ensures !IsFalsyId(userId) ==>
                res == Deleted && users == old(users) - {userId.value} && userId.value !in users
    {
      if IsFalsyId(userId) {
        return IdRequired;
      }
      users := users - {userId.value};
      res := Deleted;
    }
  }
}
