/**
  What holds of every session whatever validations, checks, logouts, password changes
  and deletions do in between each other's steps.
*/
module SessionHistory {
  import opened AuthTables
  import opened AuthSystem
  import UserIds

  // ----- The history of one session -----

  /** An entry that sets the sliding expiry of a session: its creation, or an acceptance. */
  predicate Renews(e: Entry, token: string) {
    (e.SessionCreated? || e.Validated?) && e.token == token
  }

  /** Some entry renewed the session by time `now`, late enough for this expiry. */
  ghost predicate Renewed(cfg: Config, log: seq<Entry>, token: string, expires: int, now: int) {
    exists i :: 0 <= i < |log| && Renews(log[i], token) && log[i].at <= now && expires <= log[i].at + cfg.idleTtl
  }

  ghost predicate Created(log: seq<Entry>, token: string, row: Session) {
    exists i :: 0 <= i < |log| && log[i].SessionCreated? && log[i].token == token
      && log[i].user == row.user && log[i].at == row.createdAt
  }

  /** No entry of this part of the log revokes the session or deletes its user. */
  predicate Untouched(log: seq<Entry>, token: string, user: int) {
    forall i :: 0 <= i < |log| ==>
      (log[i].Revoked? ==> token !in log[i].tokens) && (log[i].Deleted? ==> log[i].user != user)
  }

  // ----- The invariant, table by table -----

  ghost predicate RowsOk(cfg: Config, sessions: map<string, Session>, log: seq<Entry>, clock: int) {
    forall t :: t in sessions ==>
      var row := sessions[t];
      && row.absolute == row.createdAt + cfg.absTtl && row.expires <= row.absolute
      && Created(log, t, row)
      && Renewed(cfg, log, t, row.expires, clock)
  }

  /** Every revocation and deletion so far has had its effect, and it lasts. */
  ghost predicate EffectsLast(users: map<int, User>, sessions: map<string, Session>, log: seq<Entry>) {
    forall i :: 0 <= i < |log| ==>
      && (log[i].Revoked? ==> forall t :: t in log[i].tokens ==> t in sessions && sessions[t].revoked)
      && (log[i].Deleted? ==> log[i].user in users && users[log[i].user].deleted)
      && (log[i].SessionCreated? ==> log[i].token in sessions && sessions[log[i].token].user == log[i].user)
      && (log[i].LookedUp? ==> log[i].user in users)
  }

  /** A validation under way read a row that was neither revoked nor of a deleted user. */
  ghost predicate ValidationOk(
    cfg: Config, v: Validation, sessions: map<string, Session>, log: seq<Entry>, clock: int)
  {
    && v.token in sessions && v.clock <= clock && v.selected <= |log|
    && v.row.user == sessions[v.token].user && v.row.createdAt == sessions[v.token].createdAt
    && v.row.absolute == v.row.createdAt + cfg.absTtl
    && Created(log, v.token, v.row)
    && Renewed(cfg, log, v.token, v.row.expires, v.clock)
    && Untouched(log[..v.selected], v.token, v.row.user)
  }

  ghost predicate ValidationsOk(
    cfg: Config, validations: map<nat, Validation>, sessions: map<string, Session>, log: seq<Entry>, clock: int)
  {
    forall p :: p in validations ==> ValidationOk(cfg, validations[p], sessions, log, clock)
  }

  ghost predicate CheckOk(c: PasswordCheck, log: seq<Entry>, clock: int) {
    && c.lookup < |log| && log[c.lookup].LookedUp? && log[c.lookup].user == c.user && c.clock <= clock
  }

  ghost predicate ChecksOk(checks: map<nat, PasswordCheck>, log: seq<Entry>, clock: int) {
    forall p :: p in checks ==> CheckOk(checks[p], log, clock)
  }

  /** What an entry of the log promises about the entries before it. */
  ghost predicate EntryOk(cfg: Config, log: seq<Entry>, n: nat)
    requires n < |log|
  {
    match log[n]
    case LookedUp(user, _) => Deleted(user) !in log[..n]
    case SessionCreated(token, user, at, lookup) =>
      && lookup < n && log[lookup].LookedUp? && log[lookup].user == user
      && (forall i :: 0 <= i < n && log[i].SessionCreated? ==> log[i].token != token)
    case Validated(token, user, at, selected) =>
      && selected <= n && Untouched(log[..selected], token, user)
      && (exists i :: 0 <= i < n && log[i].SessionCreated? && log[i].token == token && log[i].user == user
            && at < log[i].at + cfg.absTtl)
      && (exists j :: 0 <= j < n && Renews(log[j], token) && log[j].at <= at < log[j].at + cfg.idleTtl)
    case Deleted(user) =>
      && n > 0 && log[n - 1].Revoked?
      && (forall i :: 0 <= i < n && log[i].SessionCreated? && log[i].user == user ==> log[i].token in log[n - 1].tokens)
    case _ => true
  }

  ghost predicate LogOk(cfg: Config, log: seq<Entry>) {
    forall n :: 0 <= n < |log| ==> EntryOk(cfg, log, n)
  }

  ghost predicate Inv(cfg: Config, s: System) {
    && RowsOk(cfg, s.db.sessions, s.log, s.clock)
    && EffectsLast(s.db.users, s.db.sessions, s.log)
    && ValidationsOk(cfg, s.validations, s.db.sessions, s.log, s.clock)
    && ChecksOk(s.checks, s.log, s.clock)
    && LogOk(cfg, s.log)
  }

  // ----- A longer log keeps what it promised -----

  lemma EntryStaysOk(cfg: Config, log: seq<Entry>, log': seq<Entry>, n: nat)
    requires log <= log' && n < |log| && EntryOk(cfg, log, n)
    ensures EntryOk(cfg, log', n)
  {
  }

  lemma LogStaysOk(cfg: Config, log: seq<Entry>, log': seq<Entry>)
    requires log <= log' && LogOk(cfg, log)
    requires forall n :: |log| <= n < |log'| ==> EntryOk(cfg, log', n)
    ensures LogOk(cfg, log')
  {
    forall n | 0 <= n < |log'| ensures EntryOk(cfg, log', n) {
      if n < |log| {
        EntryStaysOk(cfg, log, log', n);
      }
    }
  }

  /** Rows keep their user and their lifetime; a revoked row stays revoked. */
  predicate RowsMoveOn(was: map<string, Session>, later: map<string, Session>) {
    forall t :: t in was ==>
      && t in later
      && later[t].user == was[t].user && later[t].createdAt == was[t].createdAt && later[t].absolute == was[t].absolute
      && (was[t].revoked ==> later[t].revoked)
  }

  /** A step that leaves sliding expiries alone, or only adds rows of its own, keeps the old rows. */
  lemma RowsStayOk(
    cfg: Config, was: map<string, Session>, later: map<string, Session>, log: seq<Entry>, log': seq<Entry>,
    clock: int, clock': int)
    requires RowsOk(cfg, was, log, clock) && log <= log' && clock <= clock'
    requires forall t :: t in later ==> t in was && later[t].(revoked := false) == was[t].(revoked := false)
    ensures RowsOk(cfg, later, log', clock')
  {
  }

  lemma ValidationsStayOk(cfg: Config, vs: map<nat, Validation>, vs': map<nat, Validation>, was: map<string, Session>,
                          later: map<string, Session>, log: seq<Entry>, log': seq<Entry>, clock: int, clock': int)
    requires ValidationsOk(cfg, vs, was, log, clock) && RowsMoveOn(was, later) && log <= log' && clock <= clock'
    requires forall p :: p in vs' ==> p in vs && vs'[p] == vs[p]
    ensures ValidationsOk(cfg, vs', later, log', clock')
  {
  }

  lemma EffectsStillLast(users: map<int, User>, users': map<int, User>, was: map<string, Session>,
                         later: map<string, Session>, log: seq<Entry>, log': seq<Entry>)
    requires EffectsLast(users, was, log) && RowsMoveOn(was, later) && log <= log'
    requires UserIds.UsersMoveOn(users, users')
    requires forall n :: |log| <= n < |log'| ==>
               && !log'[n].Revoked? && !log'[n].Deleted? && !log'[n].SessionCreated?
               && (log'[n].LookedUp? ==> log'[n].user in users')
    ensures EffectsLast(users', later, log')
  {
  }

  // ----- Every step keeps the invariant -----

  /** What remains to be shown once the rows and the new entries are in order. */
  lemma OrderlyStepKeeps(cfg: Config, s: System, s': System)
    requires Inv(cfg, s) && UserIds.UsersMoveOn(s.db.users, s'.db.users)
    requires RowsMoveOn(s.db.sessions, s'.db.sessions) && RowsOk(cfg, s'.db.sessions, s'.log, s'.clock)
    requires s.clock <= s'.clock && s.log <= s'.log
    requires forall p :: p in s'.validations ==> p in s.validations && s'.validations[p] == s.validations[p]
    requires forall p :: p in s'.checks ==> p in s.checks && s'.checks[p] == s.checks[p]
    requires forall n :: |s.log| <= n < |s'.log| ==>
               && EntryOk(cfg, s'.log, n) && !s'.log[n].Revoked? && !s'.log[n].Deleted? && !s'.log[n].SessionCreated?
               && !s'.log[n].LookedUp?
    ensures Inv(cfg, s')
  {
    EffectsStillLast(s.db.users, s'.db.users, s.db.sessions, s'.db.sessions, s.log, s'.log);
    ValidationsStayOk(
      cfg, s.validations, s'.validations, s.db.sessions, s'.db.sessions, s.log, s'.log, s.clock, s'.clock);
    ChecksStayOk(s.checks, s'.checks, s.log, s'.log, s.clock, s'.clock);
    LogStaysOk(cfg, s.log, s'.log);
  }

  /** A step that leaves sessions and validations alone, and begins no password check. */
  predicate Quiet(s: System, s': System) {
    && s'.db.sessions == s.db.sessions && s'.validations == s.validations
    && (forall p :: p in s'.checks ==> p in s.checks && s'.checks[p] == s.checks[p])
    && s.clock <= s'.clock && s.log <= s'.log
    && forall n :: |s.log| <= n < |s'.log| ==> s'.log[n].InviteAccepted? || s'.log[n].PasswordSet?
  }

  lemma QuietStepKeeps(cfg: Config, s: System, s': System)
    requires Inv(cfg, s) && UserIds.UsersMoveOn(s.db.users, s'.db.users) && Quiet(s, s')
    ensures Inv(cfg, s')
  {
    RowsStayOk(cfg, s.db.sessions, s'.db.sessions, s.log, s'.log, s.clock, s'.clock);
    OrderlyStepKeeps(cfg, s, s');
  }

  lemma AcceptPhasesAreQuiet(s: System, pid: nat, t: Accept)
    ensures Quiet(s, ReadRole(s, pid, t)) && Quiet(s, PrepareUser(s, pid, t))
    ensures Quiet(s, CheckConflict(s, pid, t)) && Quiet(s, InsertAccount(s, pid, t))
    ensures t.token in s.db.invites ==> Quiet(s, Commit(s, pid, t))
  {
    hide Taken, Reserved;
  }

  lemma AcceptsAreQuiet(s: System, pid: nat)
    ensures Quiet(s, AcceptNextStep(s, pid))
  {
    if pid in s.accepts && s.accepts[pid].token in s.db.invites {
      AcceptPhasesAreQuiet(s, pid, s.accepts[pid]);
      hide ReadRole, PrepareUser, CheckConflict, InsertAccount, Commit, Quiet;
    }
  }

  lemma OthersAreQuiet(cfg: Config, s: System, e: Event)
    requires !(e.LoginLookup? || e.ChangeLookup? || e.LoginInsert? || e.Select? || e.Finish?)
    requires !(e.Logout? || e.RevokeAll? || e.Delete? || e.AcceptNext?)
    ensures Quiet(s, Step(cfg, s, e))
  {
    hide Taken, Reserved, DisplayName, Slide, AcceptNextStep, DeleteUser;
  }

  lemma ChecksStayOk(
    checks: map<nat, PasswordCheck>, checks': map<nat, PasswordCheck>, log: seq<Entry>, log': seq<Entry>,
    clock: int, clock': int)
    requires ChecksOk(checks, log, clock) && log <= log' && clock <= clock'
    requires forall p :: p in checks' ==> p in checks && checks'[p] == checks[p]
    ensures ChecksOk(checks', log', clock')
  {
  }

  lemma ReadHashKeeps(cfg: Config, s: System, pid: nat, purpose: Purpose, account: int)
    requires Inv(cfg, s) && account in s.db.accounts && Alive(s.db.users, s.db.accounts[account].linkedUser)
    ensures Inv(cfg, ReadHash(s, pid, purpose, account))
  {
    var s', u := ReadHash(s, pid, purpose, account), s.db.accounts[account].linkedUser;
    RowsStayOk(cfg, s.db.sessions, s'.db.sessions, s.log, s'.log, s.clock, s'.clock);
    EffectsStillLast(s.db.users, s'.db.users, s.db.sessions, s'.db.sessions, s.log, s'.log);
    ValidationsStayOk(
      cfg, s.validations, s'.validations, s.db.sessions, s'.db.sessions, s.log, s'.log, s.clock, s'.clock);
    ChecksStayOk(s.checks, s.checks, s.log, s'.log, s.clock, s.clock);
    assert CheckOk(s'.checks[pid], s'.log, s'.clock);
    assert Deleted(u) !in s.log;
    assert s'.log[..|s.log|] == s.log;
    LogStaysOk(cfg, s.log, s'.log);
  }

  /** The login under way can insert this session. */
  predicate CanInsert(s: System, pid: nat, token: string, clock: int) {
    && pid in s.checks && s.checks[pid].purpose == SignIn && s.checks[pid].clock <= clock <= s.clock
    && token !in s.db.sessions && s.checks[pid].user in s.db.users
  }

  lemma NewSessionIsLogged(cfg: Config, s: System, pid: nat, token: string, clock: int)
    requires EffectsLast(s.db.users, s.db.sessions, s.log) && ChecksOk(s.checks, s.log, s.clock)
    requires CanInsert(s, pid, token, clock)
    ensures var s' := InsertSessionStep(cfg, s, pid, token, clock);
            EffectsLast(s'.db.users, s'.db.sessions, s'.log) && EntryOk(cfg, s'.log, |s.log|)
  {
    var s' := InsertSessionStep(cfg, s, pid, token, clock);
    assert forall i :: 0 <= i < |s.log| ==> s'.log[i] == s.log[i];
    assert CheckOk(s.checks[pid], s.log, s.clock);
  }

  lemma InsertKeeps(cfg: Config, s: System, pid: nat, token: string, clock: int)
    requires Inv(cfg, s)
    ensures Inv(cfg, InsertSessionStep(cfg, s, pid, token, clock))
  {
    var s' := InsertSessionStep(cfg, s, pid, token, clock);
    if CanInsert(s, pid, token, clock) {
      hide RowsOk, RowsMoveOn, EffectsLast, EntryOk, LogOk, ChecksOk, ValidationsOk, NewSession;
      NewSessionIsLogged(cfg, s, pid, token, clock);
      ValidationsStayOk(
        cfg, s.validations, s'.validations, s.db.sessions, s'.db.sessions, s.log, s'.log, s.clock, s'.clock);
      ChecksStayOk(s.checks, s'.checks, s.log, s'.log, s.clock, s'.clock);
      LogStaysOk(cfg, s.log, s'.log);
    } else {
      QuietStepKeeps(cfg, s, s');
    }
  }

  lemma SelectKeeps(cfg: Config, s: System, pid: nat, token: string)
    requires Inv(cfg, s)
    ensures Inv(cfg, SelectStep(s, pid, token))
  {
  }

  /** The UPDATE writes an expiry that its own entry accounts for, never beyond the absolute one. */
  lemma UpdatedRowsAreOk(cfg: Config, s: System, v: Validation, clock: int, log': seq<Entry>)
    requires RowsOk(cfg, s.db.sessions, s.log, s.clock) && ValidationOk(cfg, v, s.db.sessions, s.log, s.clock)
    requires v.clock <= clock <= s.clock && log' == s.log + [Validated(v.token, v.row.user, clock, v.selected)]
    ensures var later := UpdateExpiry(s.db.sessions, v.token, Slide(cfg, v.row.absolute, clock));
            RowsOk(cfg, later, log', s.clock) && RowsMoveOn(s.db.sessions, later)
  {
    var later := UpdateExpiry(s.db.sessions, v.token, Slide(cfg, v.row.absolute, clock));
    RowsStayOk(cfg, s.db.sessions, s.db.sessions, s.log, log', s.clock, s.clock);
    var e := log'[|s.log|];
    assert Renews(e, v.token) && e.at == clock;
    assert Renewed(cfg, log', v.token, Slide(cfg, v.row.absolute, clock), s.clock);
    assert Created(log', v.token, s.db.sessions[v.token]);
    assert Created(log', v.token, later[v.token]);
  }

  /** An acceptance lies within the lifetimes that the row read at the SELECT allowed. */
  lemma AcceptanceIsOk(cfg: Config, s: System, v: Validation, clock: int, log': seq<Entry>)
    requires ValidationOk(cfg, v, s.db.sessions, s.log, s.clock)
    requires v.clock <= clock < v.row.expires && clock < v.row.absolute
    requires log' == s.log + [Validated(v.token, v.row.user, clock, v.selected)]
    ensures EntryOk(cfg, log', |s.log|)
  {
    var n := |s.log|;
    assert log'[..v.selected] == s.log[..v.selected];
    var i :| 0 <= i < n && s.log[i].SessionCreated? && s.log[i].token == v.token
      && s.log[i].user == v.row.user && s.log[i].at == v.row.createdAt;
    assert log'[i] == s.log[i];
    var j :| && 0 <= j < n && Renews(s.log[j], v.token) && s.log[j].at <= v.clock
             && v.row.expires <= s.log[j].at + cfg.idleTtl;
    assert log'[j] == s.log[j];
  }

  lemma AcceptKeeps(cfg: Config, s: System, v: Validation, clock: int, s': System)
    requires Inv(cfg, s) && ValidationOk(cfg, v, s.db.sessions, s.log, s.clock)
    requires v.clock <= clock <= s.clock && clock < v.row.absolute && clock < v.row.expires
    requires s'.db.sessions == UpdateExpiry(s.db.sessions, v.token, Slide(cfg, v.row.absolute, clock))
    requires s'.log == s.log + [Validated(v.token, v.row.user, clock, v.selected)]
    requires s'.db.users == s.db.users && s'.checks == s.checks && s'.clock == s.clock
    requires forall p :: p in s'.validations ==> p in s.validations && s'.validations[p] == s.validations[p]
    ensures Inv(cfg, s')
  {
    hide Renewed, Created, Untouched, Slide, UpdateExpiry;
    UpdatedRowsAreOk(cfg, s, v, clock, s'.log);
    AcceptanceIsOk(cfg, s, v, clock, s'.log);
    hide RowsOk, RowsMoveOn, EntryOk, ValidationOk, ValidationsOk, EffectsLast, LogOk, ChecksOk;
    OrderlyStepKeeps(cfg, s, s');
  }

  lemma FinishKeeps(cfg: Config, s: System, pid: nat, clock: int)
    requires Inv(cfg, s)
    ensures Inv(cfg, FinishStep(cfg, s, pid, clock))
  {
    if pid in s.validations && s.validations[pid].clock <= clock <= s.clock {
      var v := s.validations[pid];
      if clock < v.row.absolute && clock < v.row.expires {
        AcceptKeeps(cfg, s, v, clock, FinishStep(cfg, s, pid, clock));
      } else {
        ValidationsStayOk(
          cfg, s.validations, s.validations - {pid}, s.db.sessions, s.db.sessions, s.log, s.log, s.clock, s.clock);
      }
    }
  }

  predicate IsRevocation(s: System, s': System, tokens: set<string>) {
    && tokens <= s.db.sessions.Keys && s'.db.sessions == RevokeThese(s.db.sessions, tokens)
    && s'.validations == s.validations && s'.checks == s.checks && s'.clock == s.clock
    && (|| s'.log == s.log + [Revoked(tokens)]
        || (exists u :: u in s'.db.users && s'.db.users[u].deleted && tokens == SessionsOf(s.db.sessions, u)
              && s'.log == s.log + [Revoked(tokens), Deleted(u)]))
  }

  lemma RevocationHasItsEffect(s: System, s': System, tokens: set<string>)
    requires EffectsLast(s.db.users, s.db.sessions, s.log) && UserIds.UsersMoveOn(s.db.users, s'.db.users)
    requires IsRevocation(s, s', tokens)
    ensures EffectsLast(s'.db.users, s'.db.sessions, s'.log) && RowsMoveOn(s.db.sessions, s'.db.sessions)
  {
  }

  /** Revoking and deleting: the new entries have their effect at once. */
  lemma RevocationKeeps(cfg: Config, s: System, s': System, tokens: set<string>)
    requires Inv(cfg, s) && UserIds.UsersMoveOn(s.db.users, s'.db.users) && IsRevocation(s, s', tokens)
    ensures Inv(cfg, s')
  {
    RevocationHasItsEffect(s, s', tokens);
    RowsStayOk(cfg, s.db.sessions, s'.db.sessions, s.log, s'.log, s.clock, s'.clock);
    ValidationsStayOk(
      cfg, s.validations, s'.validations, s.db.sessions, s'.db.sessions, s.log, s'.log, s.clock, s'.clock);
    ChecksStayOk(s.checks, s'.checks, s.log, s'.log, s.clock, s'.clock);
    RevocationIsLogged(cfg, s, s', tokens);
  }

  lemma RevocationIsLogged(cfg: Config, s: System, s': System, tokens: set<string>)
    requires LogOk(cfg, s.log) && EffectsLast(s.db.users, s.db.sessions, s.log) && IsRevocation(s, s', tokens)
    ensures LogOk(cfg, s'.log)
  {
    var n := |s.log|;
    assert forall i :: 0 <= i < n ==> s'.log[i] == s.log[i];
    assert s'.log[n] == Revoked(tokens);
    LogStaysOk(cfg, s.log, s'.log);
  }

  lemma StepKeepsInv(cfg: Config, s: System, e: Event)
    requires Inv(cfg, s) && UserIds.Inv(s)
    ensures Inv(cfg, Step(cfg, s, e))
  {
    UserIds.StepKeepsInv(cfg, s, e);
    hide Inv, UserIds.Inv, UserIds.UsersMoveOn, Quiet;
    match e
    case LoginLookup(pid, account, email) =>
      if IsLoginRow(s.db, account, email) { ReadHashKeeps(cfg, s, pid, SignIn, account); }
    case ChangeLookup(pid, account, user) =>
      if IsPasswordRow(s.db, account, user) { ReadHashKeeps(cfg, s, pid, ChangePassword, account); }
    case LoginInsert(pid, token, clock) => InsertKeeps(cfg, s, pid, token, clock);
    case Select(pid, token) => SelectKeeps(cfg, s, pid, token);
    case Finish(pid, clock) => FinishKeeps(cfg, s, pid, clock);
    case Logout(token) =>
      if token in s.db.sessions { RevocationKeeps(cfg, s, RevokeStep(s, {token}), {token}); }
    case RevokeAll(user) =>
      RevocationKeeps(cfg, s, RevokeStep(s, SessionsOf(s.db.sessions, user)), SessionsOf(s.db.sessions, user));
    case Delete(user) =>
      if Alive(s.db.users, user) { RevocationKeeps(cfg, s, DeleteStep(s, user), SessionsOf(s.db.sessions, user)); }
    case AcceptNext(pid) =>
      AcceptsAreQuiet(s, pid);
      QuietStepKeeps(cfg, s, AcceptNextStep(s, pid));
    case _ =>
      OthersAreQuiet(cfg, s, e);
      QuietStepKeeps(cfg, s, Step(cfg, s, e));
  }

  lemma {:induction false} InvHolds(cfg: Config, roles: map<string, int>, run: seq<Event>)
    ensures Inv(cfg, After(cfg, Fresh(roles), run))
  {
    if |run| > 0 {
      InvHolds(cfg, roles, run[..|run| - 1]);
      UserIds.InvHolds(cfg, roles, run[..|run| - 1]);
      StepKeepsInv(cfg, After(cfg, Fresh(roles), run[..|run| - 1]), run[|run| - 1]);
    }
  }

  // ----- What every run guarantees -----

  /**
    Every acceptance of a session at time t is before its creation plus the absolute
    lifetime, and less than the idle lifetime after its creation or an earlier
    acceptance; and nothing in the log up to its SELECT revokes the session or deletes
    its user, so that no SELECT after a revocation leads to an acceptance.
  */
  lemma EveryAcceptanceIsTimely(cfg: Config, roles: map<string, int>, run: seq<Event>, n: nat)
    requires n < |After(cfg, Fresh(roles), run).log| && After(cfg, Fresh(roles), run).log[n].Validated?
    ensures var log := After(cfg, Fresh(roles), run).log;
            var e := log[n];
            && (exists i :: 0 <= i < n && log[i].SessionCreated? && log[i].token == e.token && log[i].user == e.user
                  && e.at < log[i].at + cfg.absTtl)
            && (exists j :: 0 <= j < n && Renews(log[j], e.token) && log[j].at <= e.at < log[j].at + cfg.idleTtl)
            && e.selected <= n && Untouched(log[..e.selected], e.token, e.user)
  {
    InvHolds(cfg, roles, run);
    assert EntryOk(cfg, After(cfg, Fresh(roles), run).log, n);
  }

  /** A session is created once, by a login whose lookup found its user and came before. */
  lemma EverySessionHasItsLogin(cfg: Config, roles: map<string, int>, run: seq<Event>, n: nat)
    requires n < |After(cfg, Fresh(roles), run).log| && After(cfg, Fresh(roles), run).log[n].SessionCreated?
    ensures var log := After(cfg, Fresh(roles), run).log;
            && log[n].lookup < n && log[log[n].lookup].LookedUp? && log[log[n].lookup].user == log[n].user
            && (forall i :: 0 <= i < |log| && i != n && log[i].SessionCreated? ==> log[i].token != log[n].token)
  {
    InvHolds(cfg, roles, run);
    var log := After(cfg, Fresh(roles), run).log;
    assert EntryOk(cfg, log, n);
    forall i | n < i < |log| && log[i].SessionCreated? ensures log[i].token != log[n].token {
      assert EntryOk(cfg, log, i);
    }
  }

  /** No stored expiry ever lies beyond the absolute one. */
  lemma ExpiryIsCapped(cfg: Config, roles: map<string, int>, run: seq<Event>, token: string)
    requires token in After(cfg, Fresh(roles), run).db.sessions
    ensures var row := After(cfg, Fresh(roles), run).db.sessions[token];
            row.expires <= row.absolute == row.createdAt + cfg.absTtl
  {
    InvHolds(cfg, roles, run);
  }

  lemma StepMovesRowsOn(cfg: Config, s: System, e: Event)
    requires ValidationsOk(cfg, s.validations, s.db.sessions, s.log, s.clock)
    ensures RowsMoveOn(s.db.sessions, Step(cfg, s, e).db.sessions)
  {
    if e.AcceptNext? {
    } else if e.LoginLookup? || e.ChangeLookup? || e.LoginInsert? || e.Select? || e.Finish? {
      SessionStepsMoveRowsOn(cfg, s, e);
    } else if e.Logout? || e.RevokeAll? || e.Delete? {
      RevocationsMoveRowsOn(cfg, s, e);
    } else {
      OthersMoveRowsOn(cfg, s, e);
    }
    hide Step, RowsMoveOn;
  }

  lemma SessionStepsMoveRowsOn(cfg: Config, s: System, e: Event)
    requires ValidationsOk(cfg, s.validations, s.db.sessions, s.log, s.clock)
    requires e.LoginLookup? || e.ChangeLookup? || e.LoginInsert? || e.Select? || e.Finish?
    ensures RowsMoveOn(s.db.sessions, Step(cfg, s, e).db.sessions)
  {
    hide ValidationsOk, AcceptNextStep, RowsMoveOn, UpdateExpiry, NewSession, Slide, SelectSession;
    NothingMovesOn(s.db.sessions);
    if e.LoginInsert? {
      if e.token !in s.db.sessions && e.pid in s.checks {
        NewRowMovesOn(s.db.sessions, e.token, NewSession(cfg, s.checks[e.pid].user, e.clock));
      }
    } else if e.Finish? {
      ExpiriesMoveOn(s.db.sessions);
    }
  }

  lemma NewRowMovesOn(sessions: map<string, Session>, token: string, row: Session)
    requires token !in sessions
    ensures RowsMoveOn(sessions, sessions[token := row])
  {
  }

  lemma ExpiriesMoveOn(sessions: map<string, Session>)
    ensures forall token, expires :: RowsMoveOn(sessions, UpdateExpiry(sessions, token, expires))
  {
  }

  lemma RevokedRowsMoveOn(sessions: map<string, Session>, tokens: set<string>)
    ensures RowsMoveOn(sessions, RevokeThese(sessions, tokens))
  {
  }

  lemma RevocationsMoveRowsOn(cfg: Config, s: System, e: Event)
    requires e.Logout? || e.RevokeAll? || e.Delete?
    ensures RowsMoveOn(s.db.sessions, Step(cfg, s, e).db.sessions)
  {
    hide RevokeThese, SessionsOf, Suspend, RowsMoveOn;
    NothingMovesOn(s.db.sessions);
    match e
    case Logout(token) => RevokedRowsMoveOn(s.db.sessions, {token});
    case RevokeAll(user) => RevokedRowsMoveOn(s.db.sessions, SessionsOf(s.db.sessions, user));
    case Delete(user) => RevokedRowsMoveOn(s.db.sessions, SessionsOf(s.db.sessions, user));
  }

  lemma NothingMovesOn(sessions: map<string, Session>)
    ensures RowsMoveOn(sessions, sessions)
  {
  }

  lemma OthersMoveRowsOn(cfg: Config, s: System, e: Event)
    requires !(e.LoginLookup? || e.ChangeLookup? || e.LoginInsert? || e.Select? || e.Finish?)
    requires !(e.Logout? || e.RevokeAll? || e.Delete? || e.AcceptNext?)
    ensures RowsMoveOn(s.db.sessions, Step(cfg, s, e).db.sessions)
  {
    OthersAreQuiet(cfg, s, e);
    hide Step;
  }

  /** From any reachable state on, rows keep user and lifetime, and a revoked session stays revoked. */
  lemma {:induction false} RevocationIsFinal(cfg: Config, roles: map<string, int>, run: seq<Event>, more: seq<Event>)
    ensures RowsMoveOn(After(cfg, Fresh(roles), run).db.sessions, After(cfg, Fresh(roles), run + more).db.sessions)
  {
    if |more| == 0 {
      assert run + more == run;
    } else {
      var before := run + more[..|more| - 1];
      assert (run + more)[..|run + more| - 1] == before;
      RevocationIsFinal(cfg, roles, run, more[..|more| - 1]);
      InvHolds(cfg, roles, before);
      StepMovesRowsOn(cfg, After(cfg, Fresh(roles), before), more[|more| - 1]);
    }
  }
}
