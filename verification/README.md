# go-lab API: verified models of its authentication and control-plane protocols

The Go API of go-lab keeps its promises in small protocols spread over SQL statements,
Redis keys and in-process maps.  This project models those protocols in Dafny and proves
what holds of every run of them.

Wherever the Go code changes something in place there are two layers.  A *step function*
says what one statement, transaction or critical section does to the state; a *class* with
the same state performs it imperatively, and its methods are proved to do exactly what the
step functions say; what that is, their contracts also say in plain fields and numbers.
The theorems are about runs: sequences of steps of any length, in any
interleaving that the code allows.  Time is an integer number of nanoseconds (of seconds in
the claims of a token) and is an input, as are random values.  SHA-256, Argon2id, the
HS256 tag, the hash in a Redis key and the comparison of email addresses are function
parameters, so that everything is proved for all of them.

| file | what it covers |
|---|---|
| `FixedWindowLimiter.dfy` | the per-process limiter: a map of windows that is swept |
| `RedisLimiter.dfy`, `RedisIsolation.dfy` | the limiter shared by replicas: counters per minute with an expiry; which clients it counts together |
| `LoginLockout.dfy`, `RedisLockout.dfy` | the login lockout, in memory and in Redis, and its Redis form command by command |
| `AuthTables.dfy`, `AuthSystem.dfy` | users, accounts, sessions and invites, and the concurrent steps on them |
| `UserIds.dfy`, `SessionHistory.dfy`, `SessionExpiry.dfy`, `SessionRevocation.dfy`, `SoftDelete.dfy`, `PasswordChange.dfy`, `LoginHistory.dfy`, `OperatorInvites.dfy`, `InviteHistory.dfy` | theorems about every run of that system |
| `OneUserRuns.dfy` | what single steps do in the runs with one user that show a property to fail |
| `AuthStore.dfy` | the store methods as one request runs them |
| `DesktopCodes.dfy`, `DesktopExchange.dfy`, `DesktopStarts.dfy`, `DesktopDeletion.dfy` | formats of desktop codes; one-time exchange with PKCE (RFC 7636); what codes are started with; codes of a deleted user |
| `RestoreWorkflow.dfy` | the two-person backup restore |
| `KeysetPagination.dfy` | the economy ledger and operator case lists, and walks over them |
| `Text.dfy`, `Base64.dfy`, `Password.dfy` | formatting and scanning, unpadded base64 (RFC 4648), stored password hashes |
| `TokenRotation.dfy` | minting and parsing of tokens, and changing the secret across a fleet |

What the proofs found, where it is sharper than or different from what one would expect:

- Sweeping old windows is invisible for requests that reach the mutex up to nine windows
  late, and not for one nanosecond more (`SweepInvisibleUpToNineWindows`); addresses are
  served independently of one another up to the same lateness (`AddressesAreIsolated`).
- If requests reach the mutex in the order of their clocks, any half-open minute admits at
  most `2*rpm - 1` requests of an address, not `2*rpm`.  If they come up to `d` late, with d
  up to nine windows, the bound is `n*(rpm - 1) + 1`, where `n = 1 + (2*WINDOW + d - 2)/WINDOW`
  windows are in reach of the minute (`AnyMinuteAdmitsAtMost`); for every limit and every
  such d some run reaches it (`BoundIsReached`), and beyond nine windows the bound fails
  (`MinuteBoundHoldsUpToNineWindows`).
- The shared limiter keeps its limit per minute if and only if clock readings never spread
  by more than 15 seconds against Redis time, where a delay between reading the clock and
  the increment counts like clock skew (`LimitHoldsUpToFifteenSeconds`).  The same 15 seconds
  decide whether any minute of readings admits at most twice the limit
  (`TwiceTheLimitHoldsUpToFifteenSeconds`), which is reached (`TwiceTheLimitIsReached`).
- Keys of the shared limiter write colons and percent signs as underscores, so clients are
  counted together exactly if their addresses differ in nothing but these three characters
  (`SharesCounterExactlyWhen`, `ClientsAreIsolatedExactlyWhen`).
- `docs/auth-session.md` says "After 5 failed logins"; with Redis up to eight wrong passwords
  can be evaluated within a quarter of an hour, because the failure counter itself expires
  after an hour (`SharedEvaluatesAtMostEight`, `EightIsReached`).  Five is kept by all runs
  shorter than d, and the two stores agree on all of them, if and only if d is at most that
  hour (`RedisKeepsFiveExactlyUpToOneHour`, `StoresAgreeExactlyUpToOneHour`).  From a given
  state, five is kept by every continuation if and only if no counter that stands at one to
  three expires inside the quarter of an hour (`RedisKeepsFiveExactlyWhen`).
- Where the Redis commands of concurrent attempts interleave, a counter at five always has an
  attempt that locks, and one without an expiry an attempt that sets it (`NothingIsForgotten`).
  But neither the bound of five (`AnyNumberIsCounted`) nor the end of a lockout by a login
  (`LoginCanBeFollowedByALateLock`) carries over from the in-memory form.
- A validation with an older clock whose UPDATE comes after that of a newer one shortens the
  sliding expiry, so that a session in use can be refused before its idle lifetime is over
  (`StaleUpdateEndsASessionInUse`).  The stored expiry is always that of the last UPDATE
  (`ExpiryIsThatOfTheLastRenewal`); sessions in use stay valid exactly where no earlier
  renewal outlasts it (`SessionInUseIsAcceptedExactlyWhen`).  Over all runs whose writes come
  at most d late, a renewal lasts for the idle lifetime less d, and for no longer
  (`RenewalsLastForIdleLessLateness`).
- A failure explanation of Reject or Cancel is true both at the UPDATE and at the later read
  if and only if the row was not inserted in between (`ExplanationsAreTrueThroughout`).
- A login that looked up the old password hash before a password change can still insert its
  session after all sessions were revoked (`OldPasswordLoginOutlivesTheChange`).  So can another
  change that looked it up: its UPDATE overwrites the new hash unseen, and whoever made it logs
  in (`LateChangeTakesOver`).  Nothing goes back to the old password for good if and only if no
  such login, and for a live user no such change, is under way when the sessions are revoked
  (`LastChangeIsFinalExactlyWhen`; `OldPasswordIsGoneExactlyWhen` also covers changes that were
  themselves overwritten).
- Desktop codes outlive their user.  After a deletion no token is minted for the user, who
  starts no further code, if and only if there was no open code and no redeemer that can still
  win (`DeletionEndsTokensExactlyWhen`).
- A walk over operator cases under a status filter can lose a case whose status changes
  meanwhile.  Every later page continues the first list for all changes if and only if the
  query has no status filter (`PagesContinueExactlyWithoutStatusFilter`).
- A stored password hash is parsed whatever stands before its first dollar sign
  (`AcceptedExactlyWhen`).
- A code challenge is accepted on its characters alone.  One whose last two bits are not zero
  is nobody's S256 value, and a code started with it never yields a token
  (`CanonicalChallenge`, `UnmatchableChallengeNeverPays`).
- An old secret that consists of blanks is accepted as the current secret but not kept as the
  previous one (`BlankSecretIsNotKept`); apart from that, keeping the old secret for the longest
  token lifetime is necessary and sufficient (`TheWaitIsTheLongestLifetime`).

## Model

| member | source | states |
|---|---|---|
| FixedWindowLimiter.EffectiveRpm | api/middleware/ratelimit.go:23-25 | a positive limit is kept, any other becomes 30 |
| FixedWindowLimiter.SweepInvisibleUpToNineWindows | api/middleware/ratelimit.go:55-81 | every run whose requests reach the mutex at most d late gets the decisions of a limiter that never sweeps, if and only if d is at most nine windows |
| FixedWindowLimiter.SweptRunAgrees | api/middleware/ratelimit.go:57-81 | up to nine windows of lateness, the swept map differs from the unswept one only in entries ten windows older than some request served, and all decisions are equal |
| FixedWindowLimiter.SurvivorsBeganRecently | api/middleware/ratelimit.go:57-64 | with a clock that never goes back, every entry in the map began less than eleven windows ago |
| FixedWindowLimiter.AddressesAreIsolated | api/middleware/ratelimit.go:55-81 | in all runs at most d late an address gets the decisions it would get alone, whatever other addresses send, if and only if d is at most nine windows |
| FixedWindowLimiter.EachWindowAdmitsAtMostTheLimit | api/middleware/ratelimit.go:70-80 | in every run, however late its requests, a window in the map was opened by a request of its address, has admitted exactly as many since as it counts, at most the limit, and has seen none from after its end |
| FixedWindowLimiter.AnyMinuteAdmitsAtMost | api/middleware/ratelimit.go:55-83 | if requests are at most d late, with d up to nine windows, any half-open minute admits at most one less than the limit per window in reach, and one more |
| FixedWindowLimiter.MinuteBoundHoldsUpToNineWindows | api/middleware/ratelimit.go:55-83 | for lateness d, that bound holds for all limits and runs if and only if d is at most nine windows |
| FixedWindowLimiter.AnyMinuteAdmitsFewerThanTwiceTheLimit | api/middleware/ratelimit.go:55-83 | if requests reach the mutex in the order of their clocks, any half-open minute admits at most twice the limit less one |
| FixedWindowLimiter.BoundIsReached | api/middleware/ratelimit.go:55-83 | for every limit and every lateness up to nine windows some run reaches the bound of `AnyMinuteAdmitsAtMost` |
| FixedWindowLimiter.InProcessLimiter.constructor | api/middleware/ratelimit.go:22-35 | a new limiter has no windows, the effective limit, and was swept when it was made |
| FixedWindowLimiter.InProcessLimiter.DropOldEntries | api/middleware/ratelimit.go:58-62 | the sweep loop deletes exactly the entries at least ten windows old |
| FixedWindowLimiter.InProcessLimiter.Allow | api/middleware/ratelimit.go:56-82 | one critical section: the new state and the decision are those of the run semantics, and are given in terms of the map, the clock and the limit alone |
| FixedWindowLimiter.InProcessLimiter.Serve | api/middleware/ratelimit.go:37-84 | a whole run through the object makes the decisions of the run semantics, and up to nine windows of lateness those of a limiter that never sweeps |
| RedisLimiter.SafeIp | api/middleware/ratelimit_redis.go:14 | colons and percent signs become underscores, and every other character is kept |
| RedisLimiter.KeyDeterminesSlot | api/middleware/ratelimit_redis.go:13-15 | a key belongs to one scope, one cleaned address and one minute |
| RedisIsolation.SharesCounterExactlyWhen | api/middleware/ratelimit_redis.go:13-15 | two requests share a counter if and only if they have one scope and one minute, and addresses that differ at most in colons, percent signs and underscores |
| RedisIsolation.PlainAddressesAreCountedApart | api/middleware/ratelimit_redis.go:14-15 | addresses without colons and percent signs share a counter only if they are equal |
| RedisIsolation.ClientsAreIsolatedExactlyWhen | api/middleware/ratelimit_redis.go:13-23 | in every run a client gets the replies, and so for every limit the decisions, of the run without the other clients' requests, if and only if none of them has its scope and such an address |
| RedisLimiter.KeyIsCountedOnce | api/middleware/ratelimit_redis.go:13-23 | up to 15 seconds of spread, a key never starts again and admits exactly the smaller of its requests and the limit, in every order of commands of all replicas |
| RedisLimiter.LimitHoldsUpToFifteenSeconds | api/middleware/ratelimit_redis.go:13-23 | a key never admits more than the limit if and only if the spread is at most 15 seconds |
| RedisLimiter.AnyMinuteAdmitsAtMostTwiceTheLimit | api/middleware/ratelimit_redis.go:13-23 | up to 15 seconds of spread, any half-open minute of clock readings admits at most twice the limit per scope and address |
| RedisLimiter.TwiceTheLimitHoldsUpToFifteenSeconds | api/middleware/ratelimit_redis.go:13-23 | for every limit from two on, no minute of clock readings admits more than twice the limit, over all runs, if and only if the spread is at most 15 seconds |
| RedisLimiter.TwiceTheLimitIsReached | api/middleware/ratelimit_redis.go:13-23 | for every limit, clocks that agree with Redis can have twice the limit admitted within a minute |
| RedisLimiter.Server.IncrKey | api/middleware/ratelimit_redis.go:13-19 | the increment: reply, key and new counters |
| RedisLimiter.Server.ExpireKey | api/middleware/ratelimit_redis.go:20-22 | the expiry, 75 seconds from the command |
| RedisLimiter.Server.Allow | api/middleware/ratelimit_redis.go:12-24 | the uninterrupted request: admitted exactly if the reply is within the limit |
| LoginLockout.MemoryEvaluatesAtMostFive | api/myhandlers/login_throttle.go:39-55 | in memory, a half-open quarter of an hour without a login evaluates at most five wrong passwords |
| LoginLockout.MemorySpan | api/myhandlers/login_throttle.go:70-88 | a span without a login evaluates at most five per quarter of an hour begun |
| LoginLockout.FiveIsReached | api/myhandlers/login_throttle.go:83-87 | five are evaluated, the sixth attempt is refused, and one at the end of the lockout is evaluated again |
| LoginLockout.InterleavedCountsAtMostFive | api/myhandlers/login_throttle.go:70-88 | however the steps of checking, finding, recording and dropping interleave, at most five failures are counted in a quarter of an hour without a login |
| LoginLockout.LockIsSetInBetween | api/myhandlers/login_throttle.go:48-54 | between a step at which the entry in place is not locked and a later one at which it is lies the counted failure that set the lock |
| LoginLockout.EntryIsDroppedInBetween | api/myhandlers/login_throttle.go:75-76 | an attempt records in an abandoned entry only if a login dropped the entry after the attempt found it |
| LoginLockout.PassedUnderALock | api/myhandlers/login_throttle.go:43-54 | a check that passes while the entry in place is locked found no entry, or read one that a login dropped between finding and reading |
| LoginLockout.UncountedFailure | api/myhandlers/auth_session_handlers.go:193-220 | an uncounted failure was checked before the lock was set, or found no entry to check before it was set, or its check or its record went to an entry that a login dropped in between |
| LoginLockout.SharedEvaluatesAtMostEight | api/myhandlers/login_throttle.go:90-106 | in Redis, a half-open quarter of an hour without a login evaluates at most eight wrong passwords |
| LoginLockout.EightIsReached | api/myhandlers/login_throttle.go:94-105 | a run of nine attempts reaches eight |
| LoginLockout.RedisKeepsFiveExactlyWhen | api/myhandlers/login_throttle.go:90-106 | every continuation of given attempts evaluates at most five in the quarter of an hour from lo if and only if no failure key with one to three failures expires inside it |
| LoginLockout.RedisKeepsFiveExactlyUpToOneHour | api/myhandlers/login_throttle.go:90-106 | all runs shorter than d evaluate at most five per quarter of an hour without a login if and only if d is at most an hour |
| LoginLockout.StoresAgree | api/myhandlers/login_throttle.go:39-115 | on every run in which no failure key expires, both forms refuse, reject and admit the same attempts |
| LoginLockout.StoresAgreeExactlyUpToOneHour | api/myhandlers/login_throttle.go:39-115 | both forms have the same outcomes on all runs shorter than d if and only if d is at most an hour |
| LoginLockout.ExpiryMakesThemDiffer | api/myhandlers/login_throttle.go:99-101 | six attempts that span exactly an hour have different outcomes |
| LoginLockout.MemoryThrottle.Locked | api/myhandlers/login_throttle.go:39-55 | locked exactly before the deadline, with the time left |
| LoginLockout.MemoryThrottle.RecordFailure | api/myhandlers/login_throttle.go:70-88 | the email's entry counts, locks for 15 minutes at the fifth failure, or is left alone; other emails are untouched |
| LoginLockout.MemoryThrottle.ClearThrottle | api/myhandlers/login_throttle.go:108-115 | the email has no entry; other emails are untouched |
| LoginLockout.MemoryThrottle.Login | api/myhandlers/auth_session_handlers.go:193-220 | the handler's sequence has the outcome of an atomic attempt; unknown accounts are never recorded |
| LoginLockout.SharedThrottle.Locked | api/myhandlers/login_throttle.go:57-68 | locked exactly while the lock key lives |
| LoginLockout.SharedThrottle.RecordFailure | api/myhandlers/login_throttle.go:90-106 | INCR, EXPIRE of an hour, SET for 15 minutes and DEL on the email's keys; other keys are untouched |
| LoginLockout.SharedThrottle.ClearThrottle | api/myhandlers/login_throttle.go:109-113 | both keys are gone; other keys are untouched |
| LoginLockout.SharedThrottle.Login | api/myhandlers/auth_session_handlers.go:193-220 | the handler around the Redis form |
| RedisLockout.NothingIsForgotten | api/myhandlers/login_throttle.go:90-106 | in every order of commands, five failures on the counter mean that some attempt is about to lock or has locked, and a counter without an expiry that some attempt is about to set it |
| RedisLockout.LockIsSetInBetween | api/myhandlers/login_throttle.go:57-106 | in every order of commands, between a moment without the lock and a later one with it lies the SET |
| RedisLockout.CountedUnderALock | api/myhandlers/login_throttle.go:90-106 | a failure counted while the lock holds comes from an attempt whose check came before a SET |
| RedisLockout.AnyNumberIsCounted | api/myhandlers/login_throttle.go:90-106 | for every n a run counts n failures at one moment, without a lock or a login |
| RedisLockout.LoginCanBeFollowedByALateLock | api/myhandlers/login_throttle.go:102-113 | a SET that was due before a login locks the email after it |
| RedisLockout.UninterruptedRunsAreAtomic | api/myhandlers/login_throttle.go:57-113 | runs whose attempts send their commands without interruption leave the keys of the runs of atomic attempts |
| UserIds.DeletionIsFinal | api/myhandlers/sqlhandlers.go:163-167 | in any continuation of any run users stay and deleted users stay deleted: no id, not even one of an uncommitted insert, is handed out twice |
| SessionHistory.EveryAcceptanceIsTimely | api/authstore/store.go:94-132 | every acceptance is before creation plus the absolute lifetime, less than the idle lifetime after creation or an earlier acceptance, and from a SELECT that no revocation or deletion precedes |
| SessionHistory.EverySessionHasItsLogin | api/myhandlers/auth_session_handlers.go:203-230 | a token is inserted once, by a login that looked its user up before |
| SessionHistory.ExpiryIsCapped | api/authstore/store.go:66-71 | no stored expiry lies beyond the absolute one, which is creation plus the absolute lifetime |
| SessionHistory.RevocationIsFinal | api/authstore/store.go:124-127 | in any continuation rows keep user and lifetime, and a late UPDATE never takes a revocation back |
| SessionRevocation.StepRevokesExactly | api/authstore/user_auth.go:112-121 | one event revokes exactly the session that is logged out, or those of the user who is revoked or deleted |
| SessionRevocation.RevokedExactlyWhen | api/authstore/user_auth.go:112-121 | in every run a stored session was inserted by one login, and is revoked if and only if there was since then a logout with its token, a revocation of all sessions of its user, or the deletion of its user |
| LoginHistory.SessionsAreForTheEmailTyped | api/authstore/user_auth.go:34-55 | in every run a session is of the live user whose active account some login found under the email typed, and was verified against that account's hash |
| LoginHistory.ChangesAreForTheSignedIn | api/authstore/user_auth.go:10-32 | in every run a changed password is that of the signed-in user whose active account the change had read |
| SessionExpiry.ExpiryIsThatOfTheLastRenewal | api/authstore/store.go:124-127 | in every reachable state the expiry of an unrevoked session is the sliding expiry of the login or acceptance that wrote it last |
| SessionExpiry.ValidationIsAcceptedExactlyWhen | api/authstore/store.go:94-132 | an uninterrupted validation in any reachable state is accepted if and only if the session is unrevoked, its user live, and the clock before absolute expiry and the idle end of the last renewal |
| SessionExpiry.SessionInUseIsAcceptedExactlyWhen | api/authstore/store.go:116-127 | from a reachable state on, a validation within the idle lifetime of any renewal is accepted at every later time if and only if no renewal outlasts the last one |
| SessionExpiry.UpdateShortensExactlyWhen | api/authstore/store.go:116-127 | an accepted UPDATE lowers the stored expiry exactly if its clock is older than that of the last renewal and not cut at the absolute expiry |
| SessionExpiry.RenewalsLastForIdleLessLateness | api/authstore/store.go:116-127 | if writes come at most d after their clock was read, every renewal in every run keeps its session valid for the span, up to the absolute expiry, if and only if the span is at most the idle lifetime less d |
| SessionExpiry.StaleUpdateEndsASessionInUse | api/authstore/store.go:116-127 | for all lifetimes, a run in which a session accepted at n, at most n late, is refused at the end of the idle lifetime that began with the login |
| SoftDelete.DeletedUserIsNeverReturned | api/myhandlers/sqlhandlers.go:163-205 | after a deletion no session SELECT, login lookup, password lookup or role query returns the user, in any run |
| SoftDelete.OnlyEarlierStepsReachADeletedUser | api/authstore/store.go:100-109 | lookups of the user and SELECTs behind its acceptances precede the deletion; its older sessions are revoked, later ones come from earlier lookups |
| SoftDelete.InFlightLoginStillInserts | api/myhandlers/auth_session_handlers.go:203-230 | a login under way inserts an unrevoked session for a deleted user, which no SELECT returns |
| PasswordChange.SessionsUseTheCurrentPassword | api/myhandlers/change_password.go:51-81 | a session comes from a lookup of the hash last set before that lookup, by the creation of the account or by a change |
| PasswordChange.ChangesVerifyTheCurrentPassword | api/myhandlers/change_password.go:51-74 | a hash set by a change was verified against the hash last set before the change's lookup |
| PasswordChange.OnlyEarlierLookupsKeepTheOldPassword | api/myhandlers/change_password.go:74-81 | a session that is valid at any time after a password was set and all sessions were revoked was inserted after that, and its login used a hash older than the change exactly if its lookup came before it |
| PasswordChange.OldPasswordIsGoneExactlyWhen | api/myhandlers/change_password.go:51-81 | after a change and revocations no continuation ever has a valid session or a stored hash that goes back to a lookup before the change if and only if neither the stored hash, nor a login under way, nor, for a live user, a change under way does |
| PasswordChange.LastChangeIsFinalExactlyWhen | api/myhandlers/change_password.go:51-81 | if that change is the last one, exactly when no login and, for a live user, no change that looked up before it is under way |
| PasswordChange.LateChangeTakesOver | api/myhandlers/change_password.go:51-81 | a change that verified the old hash can overwrite a later change after its revocations, and a login with its hash succeeds |
| PasswordChange.OldPasswordLoginOutlivesTheChange | api/myhandlers/change_password.go:74-81 | a login that looked up the old hash can end in a valid session after the change and its revocations |
| OperatorInvites.InviteCreatesOneAccount | api/authstore/operator_identity.go:76-182 | in every interleaving an invite is consumed exactly if one accept of it committed, which created one account with its email, its user and exactly its role |
| OperatorInvites.AccountsStayDistinct | api/authstore/operator_identity.go:133-158 | accounts always differ pairwise in email and in linked user |
| OperatorInvites.RolesAreThoseOfTheAccount | api/authstore/platform_rbac.go:18-27 | in every reachable state a user has exactly the roles of its one account, while the user is live and the account active |
| OperatorInvites.RolesAreTheInvitedOnes | api/authstore/operator_identity.go:160-172 | that is the invited role, under each of its names, for an account that an invite created, and none for any other |
| InviteHistory.AcceptedInTimeByTheInvited | api/authstore/operator_identity.go:89-97 | in every run each accepted invite goes back to an event that started its accept before the invite's expiry, with an email that is the same as the invite's, and with the password hash that the account got |
| InviteHistory.AcceptStartsExactlyWhen | api/authstore/operator_identity.go:64-97 | an accept starts if and only if its invite is there, unused, unexpired, meant for the email typed and not locked by another accept of it |
| InviteHistory.InsertWaitsExactlyWhen | api/authstore/operator_identity.go:133-158 | the account's INSERT waits exactly for an uncommitted account with its email or user, and fails exactly on a committed one or without a linked user |
| OperatorInvites.UncommittedStepsLeaveNoTrace | api/authstore/operator_identity.go:64-182 | every statement before the commit, and every rollback, leaves the tables as they were, but for spent ids; this is how the steps are built, as others cannot see rows before the commit, and `AuthStore.Store.AcceptInvite` proves the rollback |
| AuthTables.DisplayName | api/authstore/operator_identity.go:99-108 | the trimmed override, else the trimmed name of the invite, else a fixed name; cut at 100 characters |
| AuthStore.SessionInUseStaysValid | api/authstore/store.go:94-132 | with nothing else under way, validations that follow each other within the idle lifetime are all accepted up to the absolute expiry; `SessionExpiry` has the concurrent case |
| AuthStore.AcceptAloneOutcome | api/authstore/operator_identity.go:57-188 | the concurrent machine's statements in a row have the outcome that `AcceptInvite` has |
| AuthStore.Store.CreateSession | api/authstore/store.go:62-79 | inserts a session with sliding and absolute expiry unless the token exists or the user does not |
| AuthStore.Store.ValidateSession | api/authstore/store.go:94-132 | the uninterrupted validation is the SELECT step followed by the UPDATE step; each refusal has its own error |
| AuthStore.Store.RevokeSession | api/authstore/store.go:81-91 | that row differs only in being revoked, and every other row is the old one |
| AuthStore.Store.RevokeAllSessions | api/authstore/user_auth.go:113-122 | each row of the user differs only in being revoked, each row of another user is the old one, and the rows that changed are counted |
| AuthStore.Store.FindByEmail | api/authstore/user_auth.go:34-55 | finds an active account of a live user under the email, or there is none |
| AuthStore.Store.FindPasswordHash | api/authstore/user_auth.go:10-32 | the hash of an active account of the live user, or there is none |
| AuthStore.Store.RegisterUser | api/authstore/user_auth.go:57-88 | user and account together, or nothing but a spent id if email or user has an account |
| AuthStore.Store.PlatformRoleNames | api/authstore/platform_rbac.go:18-27 | exactly the names of the roles of active accounts of the live user |
| AuthStore.Store.UpdatePasswordHash | api/authstore/user_auth.go:91-110 | the hash of a live user's account is set and nothing else changes, or there is no such account |
| AuthStore.Store.DeleteUser | api/myhandlers/sqlhandlers.go:151-205 | user, its sessions and its account change together, those of other users are the old ones, and nothing changes for an absent or deleted user |
| AuthStore.Store.CreateInvite | api/authstore/operator_identity.go:26-55 | adds an unconsumed invite unless the token exists |
| AuthStore.Store.AcceptInvite | api/authstore/operator_identity.go:57-188 | succeeds if and only if the invite exists, is unused and unexpired, the emails agree, the role exists, email and user are free and a linked user exists; then account, role, invite and user are as invited, and any failure says why and restores all four |
| DesktopCodes.IsValidOpaqueCode | api/myhandlers/auth_handlers.go:458-471 | the loop accepts exactly 64 lower-case hexadecimal digits |
| DesktopCodes.IsValidCodeChallenge | api/myhandlers/auth_handlers.go:473-486 | the loop accepts exactly 43 characters of the URL-safe alphabet |
| DesktopCodes.IsValidCodeVerifier | api/myhandlers/auth_handlers.go:488-501 | the loop accepts exactly 43 to 128 unreserved characters |
| DesktopCodes.OpaqueCodesAreTokens | api/authstore/store.go:40-46 | accepted codes are exactly the texts of 32 random bytes |
| Base64.HexIsInjective | api/authstore/store.go:40-46 | different bytes have different texts |
| Base64.HexOfByte | api/authstore/store.go:40-46 | each byte is two digits, the high half first |
| Base64.HexDigitsInOrder | api/authstore/store.go:40-46 | the digits in order, in lower case |
| DesktopCodes.ChallengesAreAccepted | api/myhandlers/auth_handlers.go:503-506 | every S256 challenge is accepted and decodes to its hash |
| Base64.CanonicalChallenge | api/myhandlers/auth_handlers.go:473-486 | 43 letters encode a 32-byte value if and only if the last two bits are zero |
| DesktopExchange.AtMostOneToken | api/authstore/store.go:186-240 | in every interleaving, even without the row lock, a code yields at most one token |
| DesktopStarts.ConsumeDecides | api/authstore/store.go:215-236 | the UPDATE wins if and only if the code is unused and unexpired on the clock read, consumes that code alone, and otherwise the redeemer has lost |
| DesktopStarts.EveryStartWasAllowed | api/myhandlers/auth_handlers.go:177-219 | in every run each started code goes back to an event with a valid user and lifetime, a session of 3 to 128 bytes, a well-formed challenge, and no callback but a loopback one |
| DesktopExchange.TokenHasItsStart | api/myhandlers/auth_handlers.go:266-299 | every token goes back to exactly one earlier start with its user and session, redeemed before expiry with a verifier whose S256 is the challenge |
| DesktopExchange.WrongVerifierBurnsTheCode | api/myhandlers/auth_handlers.go:287-293 | after a wrong verifier no continuation issues a token for the code |
| DesktopExchange.WinnersWithTheRightVerifierGetTokens | api/myhandlers/auth_handlers.go:287-299 | once the code is consumed, a token is minted if and only if the verifier matches |
| DesktopExchange.UnmatchableChallengeNeverPays | api/myhandlers/auth_handlers.go:196-201 | a challenge that no S256 produces never yields a token |
| DesktopDeletion.TokensComeExactlyFrom | api/authstore/store.go:186-240 | from any reachable state a user who starts no further code gets a token in some continuation if and only if there is an open code that can be redeemed or a redeemer that can still win |
| DesktopDeletion.DeletionEndsTokensExactlyWhen | api/myhandlers/sqlhandlers.go:151-205 | after a deletion no such token is ever minted if and only if neither existed before it |
| DesktopExchange.ExchangeStore.StartExchange | api/myhandlers/auth_handlers.go:177-219 | stores a code exactly if user, lifetime, session, challenge and callback pass and the code is new |
| DesktopExchange.ExchangeStore.Redeem | api/authstore/store.go:186-240 | consumes a live unused code, or says why not |
| DesktopExchange.ExchangeStore.Exchange | api/myhandlers/auth_handlers.go:251-299 | the uninterrupted exchange is its three steps; each refusal has its own error |
| RestoreWorkflow.ApprovedByTwoOthers | api/authstore/backup_restore.go:164-217 | in every reachable state an approved or fulfilled row has two different approvers, neither the requester |
| RestoreWorkflow.FulfilledTookThreePeople | api/authstore/backup_restore.go:283-304 | a fulfilled request has three distinct people and no rejection or cancellation in its history |
| RestoreWorkflow.EveryoneWasEntitled | api/authstore/backup_restore.go:190-280 | in every run only the requester cancels, and only valid users other than the requester approve and reject |
| RestoreWorkflow.StatusIsToldByTheLog | api/authstore/backup_restore.go:190-304 | in every run a row is rejected, cancelled or fulfilled exactly if the log has such an action on it |
| RestoreWorkflow.TwoOthersSuffice | api/authstore/backup_restore.go:190-216 | two approvals approve a fresh request if and only if they come from two valid users other than the requester |
| RestoreWorkflow.NeverAlreadyFilled | api/authstore/backup_restore.go:213-215 | the branch for filled slots is unreachable |
| RestoreWorkflow.EveryActionIsProgress | api/authstore/backup_restore.go:190-304 | a failed action changes nothing; a successful one changes one row and lowers its rank |
| RestoreWorkflow.AtMostThreeActions | api/authstore/backup_restore.go:190-304 | a request sees at most three successful actions |
| RestoreWorkflow.RowsOnlyMoveOn | api/authstore/backup_restore.go:227-270 | a row keeps its requester and never becomes pending again |
| RestoreWorkflow.ExplanationsAreTrueThroughout | api/authstore/backup_restore.go:227-280 | the explanation after a failed Reject or Cancel is true at the UPDATE and at the read if and only if the row was not inserted between them |
| RestoreWorkflow.CountsAddUp | api/authstore/backup_restore.go:51-95 | the counts per status sum to the requests created |
| RestoreWorkflow.SuccessMovesOneRow | api/authstore/backup_restore.go:164-304 | a success moves one row between two counts, or fills a slot and moves none |
| RestoreWorkflow.RestoreStore.CreateRequest | api/authstore/backup_restore.go:74-95 | validates, inserts a pending row and returns its id |
| RestoreWorkflow.RestoreStore.ApproveRequest | api/authstore/backup_restore.go:164-217 | fills a slot or says why not |
| RestoreWorkflow.RestoreStore.RejectUpdate | api/authstore/backup_restore.go:227-238 | the conditional UPDATE and its row count |
| RestoreWorkflow.RestoreStore.ExplainReject | api/authstore/backup_restore.go:239-248 | the later read |
| RestoreWorkflow.RestoreStore.RejectRequest | api/authstore/backup_restore.go:220-250 | both in a row |
| RestoreWorkflow.RestoreStore.CancelUpdate | api/authstore/backup_restore.go:257-268 | the conditional UPDATE and its row count |
| RestoreWorkflow.RestoreStore.ExplainCancel | api/authstore/backup_restore.go:269-278 | the later read |
| RestoreWorkflow.RestoreStore.CancelRequest | api/authstore/backup_restore.go:253-280 | both in a row |
| RestoreWorkflow.RestoreStore.FulfillRequest | api/authstore/backup_restore.go:283-304 | fulfils an approved request and no other |
| RestoreWorkflow.RestoreStore.StatusCounts | api/authstore/backup_restore.go:51-71 | the map holds the exact count of every status that occurs |
| KeysetPagination.PageIsSlice | api/authstore/economy_ledger.go:68-73 | the page below the k-th matching row is the next stretch of the filtered list |
| KeysetPagination.Walk | api/authstore/economy_ledger.go:68-101 | the walk ends and yields the ids that matched at the first fetch, each once, newest first, whatever is appended meanwhile |
| KeysetPagination.WalkLedger | api/authstore/economy_ledger.go:36-101 | for every query and limit, the ledger walk returns, newest first, exactly the rows that have the user and type asked for and lie in the time span |
| KeysetPagination.WalkCases | api/authstore/operator_cases.go:163-214 | the same for cases though they are updated meanwhile, without a status filter or where no case enters or leaves its status |
| KeysetPagination.PagesContinueExactlyWithoutStatusFilter | api/authstore/operator_cases.go:163-214 | whatever happens to the cases meanwhile, every later page continues the first filtered list if and only if the query has no status filter |
| KeysetPagination.StatusFilterCanLoseRows | api/authstore/operator_cases.go:178-181 | for every query with a status filter there are tables over which the walk loses a case: the page after the first match is empty |
| KeysetPagination.EconomyLedger.ListEvents | api/authstore/economy_ledger.go:36-101 | at most 50, or the limit up to 100, rows with the user, type and time span asked for, below the bound, newest first; one that is missing lies below a full page |
| KeysetPagination.OperatorCases.ListCases | api/authstore/operator_cases.go:162-214 | at most 50, or the limit up to 200, cases with the status and subject asked for, below the bound, newest first; one that is missing lies below a full page |
| Text.ScanDecimal | api/auth/password.go:81-83 | scanning finds a printed number and stops behind it |
| Text.ScanSigned | api/auth/password.go:81-83 | a sign may come first, and a number that does not fit into 64 bits fails |
| Text.ScanBlanks | api/auth/password.go:81-83 | blanks before a number are passed over, and a bare line break fails |
| Text.TrimSpaceTakesSpacesAtTheEnds | api/authstore/operator_identity.go:99-102 | trimming takes away all white space at both ends and nothing else |
| Text.SplitJoin | api/auth/password.go:76-79 | splitting at dollar signs gives back the pieces joined |
| Base64.DecodeEncode | api/auth/password.go:88-95 | decoding encoded bytes gives back the same bytes, in either alphabet |
| Base64.LineBreaksAreIgnored | api/auth/password.go:88-95 | line breaks may stand anywhere in what is decoded |
| Base64.OtherCharactersAreRefused | api/auth/password.go:88-95 | no other character outside the alphabet may |
| Base64.GroupsOf24Bits | api/auth/password.go:49-53 | three bytes are four sextets with the same 24 bits |
| Base64.LastGroup | api/auth/password.go:49-53 | one or two bytes left over are padded with zero bits |
| Base64.LettersInOrder | api/myhandlers/auth_handlers.go:503-506 | the letters of both alphabets in order |
| Password.ParsePrinted | api/auth/password.go:49-53 | parsing the printed text gives back exactly salt and hash |
| Password.Parse | api/auth/password.go:75-97 | whatever is parsed has a salt of 16 and a hash of 32 bytes; the only failure is an invalid hash |
| Password.AcceptedExactlyWhen | api/auth/password.go:75-97 | a text is accepted if and only if it names this algorithm, version and costs and encodes a salt of 16 and a hash of 32 bytes, which are returned |
| Password.HashPassword | api/auth/password.go:37-43 | passwords below 8 and above 200 bytes are refused, and no others |
| Password.StoredText | api/auth/password.go:48-53 | the text stored for a password, with its costs |
| Password.HashVerifiesItsPassword | api/auth/password.go:37-73 | every password of 8 to 200 bytes verifies against its own hash, and another exactly if it is short enough and derives the same key |
| TokenRotation.ParseIsSound | api/auth/token.go:162-191 | a token parses if and only if it is tagged under one of the two secrets, in time, and for this issuer and audience; its claims come back unchanged |
| TokenRotation.RefusalsNameTheCurrentSecret | api/auth/token.go:162-185 | a refusal gives the reason that the current secret has |
| TokenRotation.BlankSecretIsNotKept | api/auth/token.go:33-54 | a service keeps the previous secret unless it is blank |
| TokenRotation.ServiceExactlyWhen | api/auth/token.go:33-54 | a service is built if and only if its secret, and its previous one unless blank, have 32 bytes, and issuer and audience are given |
| TokenRotation.StartableExactlyWhen | api/auth/token.go:33-54 | a rotation can start if and only if both secrets have 32 bytes and issuer and audience are given |
| TokenRotation.MintIssues | api/auth/token.go:57-159 | a service mints exactly the token for the subject, purpose and id it was asked for, and none if subject or session are missing or the lifetime is not positive |
| TokenRotation.MintedExactlyWhenIssued | api/auth/token.go:57-159 | in every run the tokens in circulation are exactly those that some event issued, with its subject, id, purpose and session, at its time and for its lifetime |
| TokenRotation.MintedIsGenuine | api/auth/token.go:57-159 | whatever an instance mints is of its issuer, valid from now, under one of the secrets, and under the old one only within the longest lifetime of its last use |
| TokenRotation.EveryTokenVerifiesEverywhere | api/auth/token.go:162-174 | once the whole fleet holds the new secret, every unexpired token verifies at every instance with its claims unchanged |
| TokenRotation.ParsingNamesTheSubject | api/auth/token.go:162-191 | parsing it then gives the subject, id and session of the event that issued it |
| TokenRotation.TheWaitIsTheLongestLifetime | api/auth/token.go:162-174 | that holds in all runs if and only if the old secret is kept for the longest lifetime after its last use |
| TokenRotation.TokenVerifiesExactlyWhere | api/auth/token.go:162-191 | at any moment of any rotation an unexpired token verifies at an instance exactly if that instance holds its secret; with a long enough wait, exactly if the instance holds the new secret or the token is under the old one |
| TokenRotation.TooEarlyTokensAreRejected | api/auth/token.go:176-185 | before that moment an instance with the old secret rejects a token under the new one |

## Left out

- Gin routing, JSON binding, response envelopes, cookies, CORS, CSRF, request ids and audit inserts: input and output only.
- The Angular client, the command-line tools, scripts and deployment files.
- OIDC tokens and identities; the users they create enter the model as users added by other requests.
- MySQL's rounding of timestamps, collations, deadlocks, and rows matched but unchanged by an UPDATE; a failing statement is a transaction rolled back.
- Redis errors (which let requests through, or fall back to the in-process limiter), a lost EXPIRE, and the rounding of a TTL to whole seconds.
- The query on `user_platform_roles` that serves databases without the operator tables.
- Case notes and actions, checks of case status and priority, role-based access checks, and the parsing of configuration.
- LoginLockout.SharedThrottle.Login: one attempt on the Redis form is atomic, as are the runs of `SharedEvaluatesAtMostEight` and `StoresAgree`; `RedisLockout` says what holds when the commands of concurrent attempts interleave, where no bound of this kind does.
- AuthStore.Store.FindByEmail: the stored hash is never absent here; an empty one stands for it.
- Verifying a password is not a step of `AuthSystem`: a login or a change that fails simply never writes.  Raw tokens appear as their hashes there.
- The locks of a deletion under way are not modelled: the deletion is one step, and more interleavings of it with accepts are allowed than the database has.
- AuthTables.DisplayName: the program cuts the name at 100 bytes of UTF-8, the model at 100 characters; a cut inside a character, which the database may refuse, is not modelled.
- Who may start a desktop code (a session, or an access token that has not expired) is not part of `DesktopExchange`; `DesktopDeletion` is about users who start none.
- Which callback URIs are loopback ones is a parameter; the audit entries that repeat them, and the `request_id`, notes and timestamps of restore rows, which no decision depends on.
- The header and the JSON form of a token; its signing method is a field.
