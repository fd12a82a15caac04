# Account service of Vivido: a verified Dafny model

Vivido keeps its accounts in a SQLite table `users` (`backend/database.py`) and
does all of its account logic in `backend/user_management.py`. That file has
three operations:

- `register_user` validates a username, an email and a password and inserts an
  account.
- `login_user` is the authentication and lockout engine. It finds the account
  by email or username, refuses inactive and locked accounts, clears an expired
  lock lazily, verifies the password with bcrypt, counts failures, locks for
  15 minutes at the fifth, and records `last_login` on success.
- `delete_user` removes an account.

The model follows that file module by module:

- `wrappers.dfy` (`Wrappers`): `Option` and `Result`, and Python's `x or ""`
  for absent arguments.
- `text.dfy` (`Text`): `str.strip()` (Python's whitespace set), ASCII
  lowering, and the identifier normalisation `strip().lower()`.
- `policy.dfy` (`Policy`): `is_valid_email`, decided by a function proved
  equal to the regular expression's meaning, and `is_strong_password` with its
  early returns.
- `hasher.dfy` (`Hasher`): bcrypt as an abstract digest. `HashPassword(p, salt)`
  verifies `p` and nothing else. `CheckPassword` fails with an error on a
  malformed digest, which is where `checkpw` raises.
- `accounts.dfy` (`Accounts`): the account row and `Attempt`, the pure
  transition a login attempt applies to the account it found. Also the lemmas
  about lockout, the registration decision `RegistrationError`, and the new row.
- `user_store.dfy` (`UserStore`): the class `UserTable`. It holds the table as
  `map<int, Account>` plus the next AUTOINCREMENT id. `Register`, `Login` and
  `Delete` change it step by step, with the same writes as the source. Each
  method is proved against the pure functions above.

Time is an integer number of seconds passed in as `now`. The salt is passed in
as a number. No part of the model reads a clock or a random source.

One consequence of the code as written is proved as a lemma rather than
corrected (`CaseVariantUsernamesShareIdentifier`). Registration compares
usernames case-sensitively, but login compares case-insensitively. So `Bob`
can register next to `bob`. After that, the identifier `bob` matches both rows,
and the row SQLite returns first is the one that gets authenticated.

## Model

| member | source | states |
|---|---|---|
| `Wrappers.OrEmpty` | backend/user_management.py:44-46 | Python's `x or ""`: the result is empty exactly when the argument is None or empty, and otherwise it is the argument itself |
| `Text.Trim` | backend/user_management.py:44-45 | the result of `strip()` has no whitespace at either end and is never longer than its input |
| `Text.TrimEmpty` | backend/user_management.py:49 | `strip()` gives the empty string exactly when every character is whitespace |
| `Text.TrimIdempotent` | backend/user_management.py:44 | stripping an already stripped string changes nothing |
| `Text.TrimIgnoresPadding` | backend/user_management.py:112 | whitespace added before and after a string does not change the stripped result |
| `Text.ToLower` | backend/user_management.py:112 | lowering keeps the length and lowers each character independently |
| `Text.Normalize` | backend/user_management.py:112 | `strip().lower()`, applied to the login identifier here and to the email at line 45: the result is no longer than the input, has no whitespace at either end and contains no capital `A`-`Z` |
| `Text.TrimLowerCommute` | backend/user_management.py:112 | stripping then lowering equals lowering then stripping |
| `Text.NormalizeCaseInsensitive` | backend/user_management.py:112 | identifiers that differ only in letter case normalise to the same string |
| `Text.NormalizeIdempotent` | backend/user_management.py:112 | normalising an identifier twice is the same as normalising it once |
| `Text.NormalizeIgnoresPadding` | backend/user_management.py:112 | whitespace around an identifier is ignored by the normalisation |
| `Policy.IndexOf` | backend/user_management.py:16 | returns the first `@` position at or after the start index, or the length when there is none |
| `Policy.LastIndexOf` | backend/user_management.py:16 | returns the last `.` position in the range, or one before the range when there is none |
| `Policy.HasEmailShape` | backend/user_management.py:16 | true exactly when the whole string has the shape `[\w.-]+@[\w.-]+\.\w+` |
| `Policy.IsValidEmail` | backend/user_management.py:14-17 | true exactly when `re.match` accepts the pattern, including `$` matching before one final newline |
| `Policy.Search` | backend/user_management.py:23-29 | `re.search` with a one-character class is true exactly when some character is in the class |
| `Policy.IsStrongPassword` | backend/user_management.py:19-31 | true exactly when length is at least 8 and there is an uppercase letter, a lowercase letter, a digit and a symbol from the listed set |
| `Policy.StrongPasswordExamples` | test_reg.py:77-83 | `Strong@123` (from this test) and `ValidPass123!` (from test_login.py:52) pass the password rule |
| `Policy.WeakPasswordExamples` | test_reg.py:47-73 | `abc`, `strong@123` and `Strong123` fail the password rule |
| `Policy.EmailExamples` | test_reg.py:7-43 | `validuser@gmail.com` is a valid email; `bademail`, `bobexample.com` and `invalidemail` are not |
| `Hasher.CheckPassword` | backend/user_management.py:175-178 | verification fails with an error exactly for a malformed digest |
| `Hasher.HashPassword` | backend/user_management.py:33-36 | the digest verifies the password it was made from, and every other password is rejected |
| `Hasher.SaltedDigestsDiffer` | backend/user_management.py:35 | two salts give two different digests of one password, and each of them verifies it (`Ok(true)`) |
| `Accounts.Attempt` | backend/user_management.py:152-225 | an attempt never changes username, email, digest, active flag or creation time; it succeeds exactly when the account is active, not locked at `now`, and the password verifies |
| `Accounts.LockedAt` | backend/user_management.py:157-159 | a lock is in force when `locked_until` is set and `now` is before it; at or after that time the lock has expired |
| `Accounts.LockConsistent` | backend/user_management.py:180-216 | the lock state the engine maintains: no lock and 0 to 4 failures, or a lock and exactly 5 failures |
| `Accounts.AttemptKeepsLockConsistent` | backend/user_management.py:165-216 | from a state that is unlocked with 0 to 4 failures, or locked with exactly 5, every attempt leads to such a state again |
| `Accounts.InactiveRefused` | backend/user_management.py:153-154 | an inactive account is refused with every password, and nothing changes |
| `Accounts.LockedRefusesEveryPassword` | backend/user_management.py:157-164 | while a lock is in force, the answer is the same for every password and the account is unchanged; the minutes shown are the remaining seconds divided by 60, rounded down |
| `Accounts.ExpiredLockRestartsCount` | backend/user_management.py:165-172 | after a lock expires, the attempt behaves exactly as if the account had no lock and a count of 0, and that cleared state is stored |
| `Accounts.MalformedDigestChangesNothing` | backend/user_management.py:175-178 | a verification error changes nothing except the lazy unlock already made |
| `Accounts.WrongPasswordCounts` | backend/user_management.py:180-207 | a wrong password stores count+1; at 5 or more it also locks until `now` + 15 min and reports the lock; below 5 it reports `5 - count` attempts left, between 1 and 4, and no lock |
| `Accounts.CorrectPasswordLogsIn` | backend/user_management.py:209-225 | the right password sets `last_login = now`, resets the count and the lock, and returns the id, username, email and login time |
| `Accounts.ConsecutiveFailures` | tests/test_login_auth.py:144-158 | on an active unlocked account, k wrong passwords starting from count c, with c + k at most 5, leave the count at c + k; below 5 no lock is set; the account stays active and its identity and digest are unchanged |
| `Accounts.FailureMessages` | test_login.py:258-268 | the k-th consecutive wrong password from count 0 stores count k and, for k below 5, reports `5 - k` attempts left; the fifth reports the lock and locks until 15 minutes after it |
| `Accounts.FiveFailuresLock` | test_login.py:165-176 | after five wrong passwords, every attempt before the lock expires is refused as locked, even with the correct password |
| `Accounts.IdentifiedBy` | backend/user_management.py:127-131 | the WHERE clause: the lowered stored email or username equals the identifier; it can hold only for an identifier with no capital `A`-`Z` |
| `Accounts.RegisteredAccountFoundInAnyCase` | test_login.py:250-276 | an account stored with a trimmed username and a normalised email is found by its username or email typed in any ASCII letter case, with any whitespace before and after it |
| `Accounts.UsernameInUse` | backend/user_management.py:64-66 | some row has exactly this username, compared case-sensitively |
| `Accounts.EmailInUse` | backend/user_management.py:68-70 | some row has exactly this email |
| `Accounts.RegistrationError` | backend/user_management.py:49-70 | registration is refused for the first rule broken, in this order: username shorter than 3, bad email, empty password, weak password, username taken exactly, email taken; it passes only when no rule is broken |
| `Accounts.CaseVariantUsernamesShareIdentifier` | backend/user_management.py:64-66 | a valid registration whose username differs from a stored one only by letter case is accepted, and then both the stored row and the new row match the same lowered login identifier |
| `Accounts.NewAccount` | backend/database.py:26-30 | a new row takes the schema defaults: active, no failures, no lock and no last login, so its lock state is consistent |
| `Accounts.RegisteredAccountAuthenticates` | test_login.py:49-59 | a freshly registered account logs in with its password; any other password counts a first failure and reports 4 attempts left |
| `UserStore.IsFalsyId` | backend/user_management.py:274-275 | `not user_id`: the id is absent or 0 |
| `UserStore.UserTable.constructor` | backend/database.py:20-31 | the table starts empty, with ids starting at 1 |
| `UserStore.UserTable.FindByIdentifier` | backend/user_management.py:127-133 | finds a row whose lowered email or username equals the identifier, and returns none only when no row matches |
| `UserStore.UserTable.Login` | backend/user_management.py:92-233 | empty identifier or password gives "required" and an unknown identifier gives "not found", both with the table unchanged; otherwise only the matched row changes, to its state after `Attempt`, and the answer is the one `Attempt` gives; the lock-state invariant is preserved |
| `UserStore.UserTable.Authenticate` | backend/user_management.py:152-225 | from the fetched row on, the row is replaced by its state after `Attempt` and no other row changes; the contract states only the final table, and the order of the writes (the lazy unlock first) is in the body only |
| `UserStore.UserTable.Update` | backend/user_management.py:167-171 | an UPDATE replaces one row, keeps its username and email, and keeps the table's uniqueness constraints |
| `UserStore.UserTable.Insert` | backend/user_management.py:74-79 | an INSERT adds the row under a fresh AUTOINCREMENT id and leaves every other row as it was |
| `UserStore.UserTable.Register` | backend/user_management.py:41-89 | a refused registration leaves the table unchanged; otherwise exactly one row is added with the trimmed username, the lowered email, a digest of the password and the defaults |
| `UserStore.UserTable.Delete` | backend/user_management.py:262-295 | an absent or zero id is refused and nothing changes; any other id is gone afterwards, whether or not it existed, and success is reported |

## Left out

- Store failures are not modelled: `sqlite3.Error`, `IntegrityError` and generic exceptions, and the messages they produce (lines 82-86, 227-230, 289-292). Because of the uniqueness pre-checks, the insert cannot hit `IntegrityError` in this model.
- The legacy-schema branch of `login_user` (lines 123-148, probing `PRAGMA table_info`) is not modelled. The model assumes the fixed schema of `backend/database.py`.
- Messages are not modelled as text. Each answer is a constructor carrying the numbers the message shows: minutes left and attempts left.
- Time is one integer `now` per call. The source reads `datetime.now()` several times within one call and stores ISO-8601 strings.
- `Text.ToLower`: lowers only `A`-`Z`. This is exactly SQLite's `LOWER()`, but less than Python's Unicode `str.lower()` on non-ASCII identifiers.
- `Accounts.IdentifiedBy`: one ASCII lowering is applied to both sides of the comparison. In the source, the typed identifier is lowered by Python's Unicode `str.lower()` (line 112), and the stored column by SQLite's ASCII-only `LOWER()` (line 130). So a stored username with a non-ASCII capital, such as `Élodie`, is never found by the source, even when typed exactly as stored, while the model finds it. Conversely, the source finds a stored `élodie` from the typed `Élodie`, and the model does not. `RegisteredAccountFoundInAnyCase`, `UserTable.FindByIdentifier` and `UserTable.Login` agree with the source only when neither the stored names nor the typed identifier contain a non-ASCII capital letter.
- `Policy.IsWordChar`: `\w` is read as ASCII letters, digits and `_`. Python's `re` also accepts Unicode letters and digits.
- `Hasher.HashPassword`: no collisions, and no truncation at 72 bytes. In this model a digest verifies exactly one password, while real bcrypt ignores everything after the 72nd byte. The salt is a parameter in place of `gensalt()` randomness.
- `Hasher.CheckPassword`: the only error modelled is a malformed stored digest. Errors from encoding the password are not.
- `forgot_password`, `generate_reset_token` and `send_reset_email` are not modelled. They use randomness, `print` output and a mocked email.
- `created_at` is not modelled as the database's own `CURRENT_TIMESTAMP`: the model stores the `now` passed to `Register`.
- Concurrency is not modelled. Each method runs as one atomic step, so the read-then-write race between two concurrent logins is not captured.
- The `transactions` and `image_history` tables and their cascading deletes are not modelled. `delete_user` issues no statements for them.
- All UI modules are not part of this model: the Streamlit pages, the client-side username and password checks in `pages/register.py`, and `pages/verify.py`.
