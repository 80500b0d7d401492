/**
  The tables under concurrent use.  A session validation is a SELECT and a later UPDATE;
  a login is a lookup and, once the password is verified, a later INSERT; a password
  change is a lookup and, once the old password is verified, a later UPDATE; accepting an
  invite is a transaction of several statements that keeps a lock on its invite and its
  own changes to itself until it commits.  Everything else is one statement or one
  transaction that other requests see at once.  Each step may be followed by any step of
  any request.
*/
module AuthSystem {
  import opened Common
  import opened AuthTables

  // ----- What has happened -----

  datatype Entry =
    | LookedUp(user: int, hash: string)
    | SessionCreated(token: string, user: int, at: int, lookup: nat)
    | Validated(token: string, user: int, at: int, selected: nat)
    | Revoked(tokens: set<string>)
    | Deleted(user: int)
    | PasswordSet(user: int, hash: string, verified: Option<nat>)   // by the change with this lookup, or a new account
    | InviteAccepted(invite: string, account: int, user: int, email: string, at: int)   // the email typed, and when

  // ----- Requests under way -----

  /** A validation between its SELECT and its UPDATE; `selected` is the length of the log at the SELECT. */
  datatype Validation = Validation(token: string, row: Session, clock: int, selected: nat)

  datatype Purpose = SignIn | ChangePassword

  /**
    A login or a password change that has read a stored hash and verifies a password
    against it; `lookup` is the position of the lookup in the log.
  */
  datatype PasswordCheck = PasswordCheck(purpose: Purpose, user: int, lookup: nat, clock: int)

  /** The statements of an accept that are done. */
  datatype Phase = InviteLocked | RoleRead | UserReady | Checked | AccountInserted

  datatype Accept = Accept(
    phase: Phase, token: string, invite: Invite, email: string, at: int,   // the email typed, and the clock read
    name: string, hash: string,
    role: int, seen: map<int, Account>,       // the role, and the accounts as of the transaction's snapshot
    user: int, ownUser: bool,                 // the user to link, and whether the transaction inserted it
    account: int)

  datatype System = System(
    clock: int, db: Db,
    validations: map<nat, Validation>, checks: map<nat, PasswordCheck>, accepts: map<nat, Accept>,
    log: seq<Entry>)

  datatype Event =
    | Tick(elapsed: nat)
    | AddUser(name: string)
    | Register(email: string, name: string, hash: string)
    | LoginLookup(pid: nat, account: int, email: string)
    | LoginInsert(pid: nat, token: string, clock: int)      // the clock as read before the INSERT
    | Select(pid: nat, token: string)
    | Finish(pid: nat, clock: int)            // the clock as read between the SELECT and the UPDATE
    | Logout(token: string)
    | ChangeLookup(pid: nat, account: int, user: int)
    | ChangeUpdate(pid: nat, hash: string)
    | RevokeAll(user: int)
    | Delete(user: int)
    | AddInvite(token: string, invite: Invite)
    | AcceptStart(pid: nat, token: string, email: string, name: string, hash: string)
    | AcceptNext(pid: nat)
    | AcceptAbort(pid: nat)

  // ----- Steps of sessions and logins -----

  function AddUserStep(s: System, name: string): System {
    s.(db := s.db.(users := s.db.users[s.db.nextUser := User(name, false)], nextUser := s.db.nextUser + 1))
  }

  /** Reading a stored hash in order to verify a password against it. */
  function ReadHash(s: System, pid: nat, purpose: Purpose, account: int): System
    requires account in s.db.accounts
  {
    var a := s.db.accounts[account];
    s.(checks := s.checks[pid := PasswordCheck(purpose, a.linkedUser, |s.log|, s.clock)],
       log := s.log + [LookedUp(a.linkedUser, a.passwordHash)])
  }

  function LookupStep(s: System, pid: nat, account: int, email: string): System {
    if IsLoginRow(s.db, account, email) then ReadHash(s, pid, SignIn, account) else s
  }

  /**
    Whether or not its INSERT succeeds, the login is over; it fails on a duplicate token
    hash, and without a user row.
  */
  function InsertSessionStep(cfg: Config, s: System, pid: nat, token: string, clock: int): System {
    if pid !in s.checks || s.checks[pid].purpose != SignIn || !(s.checks[pid].clock <= clock <= s.clock) then s
    else
      var l := s.checks[pid];
      var over := s.(checks := s.checks - {pid});
      if token in s.db.sessions || l.user !in s.db.users then over
      else
        over.(db := s.db.(sessions := s.db.sessions[token := NewSession(cfg, l.user, clock)]),
              log := s.log + [SessionCreated(token, l.user, clock, l.lookup)])
  }

  function SelectStep(s: System, pid: nat, token: string): System {
    var row := SelectSession(s.db, token);
    if row.None? || row.value.revoked then s
    else s.(validations := s.validations[pid := Validation(token, row.value, s.clock, |s.log|)])
  }

  /** The UPDATE succeeds whether or not it matches a row: the user is accepted either way. */
  function FinishStep(cfg: Config, s: System, pid: nat, clock: int): System {
    if pid !in s.validations || !(s.validations[pid].clock <= clock <= s.clock) then s
    else
      var v := s.validations[pid];
      if clock >= v.row.absolute || clock >= v.row.expires then s.(validations := s.validations - {pid})
      else
        s.(db := s.db.(sessions := UpdateExpiry(s.db.sessions, v.token, Slide(cfg, v.row.absolute, clock))),
           validations := s.validations - {pid},
           log := s.log + [Validated(v.token, v.row.user, clock, v.selected)])
  }

  function RevokeStep(s: System, tokens: set<string>): System {
    s.(db := s.db.(sessions := RevokeThese(s.db.sessions, tokens)), log := s.log + [Revoked(tokens)])
  }

  function ChangeLookupStep(s: System, pid: nat, account: int, user: int): System {
    if IsPasswordRow(s.db, account, user) then ReadHash(s, pid, ChangePassword, account) else s
  }

  /** The UPDATE does not look at the hash that was verified. */
  function ChangeUpdateStep(s: System, pid: nat, hash: string): System {
    if pid !in s.checks || s.checks[pid].purpose != ChangePassword then s
    else
      var k := s.checks[pid];
      var over := s.(checks := s.checks - {pid});
      if !Alive(s.db.users, k.user) || !HasAccount(s.db.accounts, k.user) then over
      else over.(db := UpdateHash(s.db, k.user, hash), log := s.log + [PasswordSet(k.user, hash, Some(k.lookup))])
  }

  function DeleteStep(s: System, user: int): System {
    if !Alive(s.db.users, user) then s
    else s.(db := DeleteUser(s.db, user), log := s.log + [Revoked(SessionsOf(s.db.sessions, user)), Deleted(user)])
  }

  // ----- Steps of an accept -----

  /** Another transaction holds an uncommitted account with this email or user. */
  predicate Reserved(accepts: map<nat, Accept>, email: string, user: int) {
    exists p :: p in accepts && accepts[p].phase == AccountInserted
      && (accepts[p].invite.email == email || accepts[p].user == user)
  }

  /** Self-registration: a user and its account in one transaction, or nothing but a spent id. */
  function RegisterStep(s: System, email: string, name: string, hash: string): System {
    var u, a := s.db.nextUser, s.db.nextAccount;
    if Reserved(s.accepts, email, u) then s
    else if Taken(s.db.accounts, email, u) then s.(db := s.db.(nextUser := u + 1))
    else s.(db := s.db.(
      users := s.db.users[u := User(name, false)], nextUser := u + 1,
      accounts := s.db.accounts[a := Account(u, email, hash, true)], nextAccount := a + 1),
      log := s.log + [PasswordSet(u, hash, None)])
  }

  function AddInviteStep(s: System, token: string, invite: Invite): System {
    if token in s.db.invites then s
    else s.(db := s.db.(invites := s.db.invites[token := invite.(consumed := false)]))
  }

  function InviteVerdict(cfg: Config, db: Db, now: int, token: string, email: string): Option<InviteFailure> {
    if token !in db.invites then Some(InviteNotFound)
    else if db.invites[token].consumed then Some(InviteUsed)
    else if now >= db.invites[token].expires then Some(InviteExpired)
    else if !cfg.sameEmail(db.invites[token].email, email) then Some(EmailMismatch)
    else None
  }

  /** SELECT ... FOR UPDATE of the invite and its checks; it waits while another transaction holds the invite. */
  function AcceptStartStep(
    cfg: Config, s: System, pid: nat, token: string, email: string, name: string, hash: string): System
  {
    if pid in s.accepts || (exists p :: p in s.accepts && s.accepts[p].token == token) then s
    else if InviteVerdict(cfg, s.db, s.clock, token, email).Some? then s
    else
      var invite := s.db.invites[token];
      s.(accepts := s.accepts[pid := Accept(
           InviteLocked, token, invite, email, s.clock, DisplayName(name, invite.displayName), hash,
           0, map[], 0, false, 0)])
  }

  function Rollback(s: System, pid: nat): System {
    s.(accepts := s.accepts - {pid})
  }

  function Advance(s: System, pid: nat, t: Accept): System {
    s.(accepts := s.accepts[pid := t])
  }

  function ReadRole(s: System, pid: nat, t: Accept): System {
    if t.invite.role !in s.db.roles then Rollback(s, pid)
    else Advance(s, pid, t.(phase := RoleRead, role := s.db.roles[t.invite.role], seen := s.db.accounts))
  }

  /** An id that AUTO_INCREMENT has handed out stays spent, whatever becomes of the transaction. */
  function PrepareUser(s: System, pid: nat, t: Accept): System {
    if t.invite.linkedUser.Some? && t.invite.linkedUser.value > 0 then
      Advance(s, pid, t.(phase := UserReady, user := t.invite.linkedUser.value, ownUser := false))
    else
      Advance(s, pid, t.(phase := UserReady, user := s.db.nextUser, ownUser := true))
      .(db := s.db.(nextUser := s.db.nextUser + 1))
  }

  function CheckConflict(s: System, pid: nat, t: Accept): System {
    if Taken(t.seen, t.invite.email, t.user) then Rollback(s, pid) else Advance(s, pid, t.(phase := Checked))
  }

  /**
    The INSERT of the account waits for uncommitted rows with the same keys, fails on
    committed ones, and fails without a user row to refer to.
  */
  function InsertAccount(s: System, pid: nat, t: Accept): System {
    if Reserved(s.accepts, t.invite.email, t.user) then s
    else if Taken(s.db.accounts, t.invite.email, t.user) || (!t.ownUser && t.user !in s.db.users) then Rollback(s, pid)
    else Advance(s, pid, t.(phase := AccountInserted, account := s.db.nextAccount))
         .(db := s.db.(nextAccount := s.db.nextAccount + 1))
  }

  /** The role row, the mark on the invite, and the COMMIT that makes everything visible. */
  function Commit(s: System, pid: nat, t: Accept): System
    requires t.token in s.db.invites
  {
    Rollback(s, pid).(
      db := s.db.(
        users := if t.ownUser then s.db.users[t.user := User(t.name, false)] else s.db.users,
        accounts := s.db.accounts[t.account := Account(t.user, t.invite.email, t.hash, true)],
        accountRoles := s.db.accountRoles + {(t.account, t.role)},
        invites := s.db.invites[t.token := s.db.invites[t.token].(consumed := true)]),
      log := s.log + [InviteAccepted(t.token, t.account, t.user, t.email, t.at), PasswordSet(t.user, t.hash, None)])
  }

  function AcceptNextStep(s: System, pid: nat): System {
    if pid !in s.accepts || s.accepts[pid].token !in s.db.invites then s
    else
      var t := s.accepts[pid];
      match t.phase
      case InviteLocked => ReadRole(s, pid, t)
      case RoleRead => PrepareUser(s, pid, t)
      case UserReady => CheckConflict(s, pid, t)
      case Checked => InsertAccount(s, pid, t)
      case AccountInserted => Commit(s, pid, t)
  }

  // ----- Runs -----

  function Step(cfg: Config, s: System, e: Event): System {
    match e
    case Tick(elapsed) => s.(clock := s.clock + elapsed)
    case AddUser(name) => AddUserStep(s, name)
    case Register(email, name, hash) => RegisterStep(s, email, name, hash)
    case LoginLookup(pid, account, email) => LookupStep(s, pid, account, email)
    case LoginInsert(pid, token, clock) => InsertSessionStep(cfg, s, pid, token, clock)
    case Select(pid, token) => SelectStep(s, pid, token)
    case Finish(pid, clock) => FinishStep(cfg, s, pid, clock)
    case Logout(token) => if token in s.db.sessions then RevokeStep(s, {token}) else s
    case ChangeLookup(pid, account, user) => ChangeLookupStep(s, pid, account, user)
    case ChangeUpdate(pid, hash) => ChangeUpdateStep(s, pid, hash)
    case RevokeAll(user) => RevokeStep(s, SessionsOf(s.db.sessions, user))
    case Delete(user) => DeleteStep(s, user)
    case AddInvite(token, invite) => AddInviteStep(s, token, invite)
    case AcceptStart(pid, token, email, name, hash) => AcceptStartStep(cfg, s, pid, token, email, name, hash)
    case AcceptNext(pid) => AcceptNextStep(s, pid)
    case AcceptAbort(pid) => Rollback(s, pid)
  }

  function After(cfg: Config, s: System, run: seq<Event>): System {
    if |run| == 0 then s else Step(cfg, After(cfg, s, run[..|run| - 1]), run[|run| - 1])
  }

  lemma OneMore(cfg: Config, s: System, run: seq<Event>, e: Event)
    ensures After(cfg, s, run + [e]) == Step(cfg, After(cfg, s, run), e)
  {
  }

  lemma {:induction false} AfterBoth(cfg: Config, s: System, run: seq<Event>, more: seq<Event>)
    ensures After(cfg, s, run + more) == After(cfg, After(cfg, s, run), more)
  {
    if |more| == 0 {
      assert run + more == run;
    } else {
      assert (run + more)[..|run + more| - 1] == run + more[..|more| - 1];
      AfterBoth(cfg, s, run, more[..|more| - 1]);
    }
  }

  /** The system before its first user, with the roles that the migrations create. */
  function Fresh(roles: map<string, int>): System {
    System(0, Db(map[], 1, map[], 1, roles, {}, map[], map[]), map[], map[], map[], [])
  }
}
