/**
  The store as one request runs it: each method does its statements in order on the
  tables, and is proved to do what the steps of the concurrent system do when nothing
  comes in between.
*/
module AuthStore {
  import opened Common
  import opened AuthTables
  import opened AuthSystem

  datatype SessionFailure = SessionNotFound | SessionRevoked | SessionExpired

  /** The system with these tables and nothing under way. */
  function Alone(now: int, db: Db): System {
    System(now, db, map[], map[], map[], [])
  }

  function ValidateAlone(cfg: Config, now: int, db: Db, token: string): System {
    FinishStep(cfg, SelectStep(Alone(now, db), 0, token), 0, now)
  }

  function LoginAlone(cfg: Config, now: int, db: Db, user: int, token: string): System {
    InsertSessionStep(cfg, Alone(now, db).(checks := map[0 := PasswordCheck(SignIn, user, 0, now)]), 0, token, now)
  }

  /** The tables after validations of one session at these times. */
  function AfterValidations(cfg: Config, db: Db, token: string, times: seq<int>): Db {
    if |times| == 0 then db
    else
      ValidateAlone(cfg, times[|times| - 1], AfterValidations(cfg, db, token, times[..|times| - 1]), token).db
  }

  /** When the session was last renewed: at `start`, or by the last of these validations. */
  function LastOf(start: int, times: seq<int>): int {
    if |times| == 0 then start else times[|times| - 1]
  }

  /**
    A validation at `now` comes in time after these: before the absolute expiry, less than
    idle later than the last.
  */
  predicate InTime(cfg: Config, start: int, times: seq<int>, now: int, absolute: int) {
    now < absolute && now < LastOf(start, times) + cfg.idleTtl
  }

  /** Each of these validations comes in time after the ones before it. */
  predicate KeepsAlive(cfg: Config, start: int, times: seq<int>, absolute: int) {
    |times| == 0 ||
    (KeepsAlive(cfg, start, times[..|times| - 1], absolute)
     && InTime(cfg, start, times[..|times| - 1], times[|times| - 1], absolute))
  }

  lemma TimelyValidation(cfg: Config, now: int, db: Db, token: string)
    requires token in db.sessions && !db.sessions[token].revoked && Alive(db.users, db.sessions[token].user)
    requires now < db.sessions[token].expires && now < db.sessions[token].absolute
    ensures var s := ValidateAlone(cfg, now, db, token);
            var row := db.sessions[token];
            && s.log == [Validated(token, row.user, now, 0)]
            && s.db.users == db.users
            && s.db.sessions == db.sessions[token := row.(expires := Slide(cfg, row.absolute, now))]
  {
  }

  /**
    A session in use stays valid: from a renewal at `start` on, validations that follow
    each other within the idle lifetime are all accepted up to the absolute expiry.
  */
  lemma {:induction false} SessionInUseStaysValid(
    cfg: Config, db: Db, token: string, start: int, times: seq<int>, now: int)
    requires token in db.sessions && !db.sessions[token].revoked && Alive(db.users, db.sessions[token].user)
    requires db.sessions[token].expires == Slide(cfg, db.sessions[token].absolute, start)
    requires KeepsAlive(cfg, start, times, db.sessions[token].absolute)
    requires InTime(cfg, start, times, now, db.sessions[token].absolute)
    ensures var later := AfterValidations(cfg, db, token, times);
            var row := db.sessions[token];
            && later.users == db.users && token in later.sessions
            && later.sessions[token] == row.(expires := Slide(cfg, row.absolute, LastOf(start, times)))
            && ValidateAlone(cfg, now, later, token).log == [Validated(token, row.user, now, 0)]
  {
    hide ValidateAlone;
    if |times| > 0 {
      var before, last := times[..|times| - 1], times[|times| - 1];
      SessionInUseStaysValid(cfg, db, token, start, before, last);
      TimelyValidation(cfg, last, AfterValidations(cfg, db, token, before), token);
    }
    TimelyValidation(cfg, now, AfterValidations(cfg, db, token, times), token);
  }

  /** All statements of an accept in a row. */
  function AcceptAlone(
    cfg: Config, now: int, db: Db, token: string, email: string, name: string, hash: string): System
  {
    var s := AcceptStartStep(cfg, Alone(now, db), 0, token, email, name, hash);
    AcceptNextStep(AcceptNextStep(AcceptNextStep(AcceptNextStep(AcceptNextStep(s, 0), 0), 0), 0), 0)
  }

  /** The invite names a user to link. */
  predicate Links(invites: map<string, Invite>, token: string) {
    token in invites && invites[token].linkedUser.Some? && invites[token].linkedUser.value > 0
  }

  /** The user that an accept links, and the next free id after it. */
  function LinkedUser(db: Db, invite: Invite): (int, int) {
    if invite.linkedUser.Some? && invite.linkedUser.value > 0 then (invite.linkedUser.value, db.nextUser)
    else (db.nextUser, db.nextUser + 1)
  }

  /** Why an accept that runs alone fails, if it does. */
  function AcceptVerdict(cfg: Config, now: int, db: Db, token: string, email: string): Option<InviteFailure> {
    if InviteVerdict(cfg, db, now, token, email).Some? then InviteVerdict(cfg, db, now, token, email)
    else
      var invite := db.invites[token];
      var (user, next) := LinkedUser(db, invite);
      if invite.role !in db.roles then Some(RoleNotFound)
      else if Taken(db.accounts, invite.email, user) then Some(EmailExists)
      else if next == db.nextUser && user !in db.users then Some(DatabaseError)
      else None
  }

  /** The tables after an accept that runs alone. */
  function Accepted(db: Db, token: string, name: string, hash: string): Db
    requires token in db.invites && db.invites[token].role in db.roles
  {
    var invite := db.invites[token];
    var (user, next) := LinkedUser(db, invite);
    db.(
      users := if next == db.nextUser then db.users
               else db.users[user := User(DisplayName(name, invite.displayName), false)],
      nextUser := next,
      accounts := db.accounts[db.nextAccount := Account(user, invite.email, hash, true)],
      nextAccount := db.nextAccount + 1,
      accountRoles := db.accountRoles + {(db.nextAccount, db.roles[invite.role])},
      invites := db.invites[token := invite.(consumed := true)])
  }

  /**
    The tables after an accept that runs alone, whether or not it succeeds; a failure leaves
    no more than a spent id.
  */
  function AfterAccept(cfg: Config, now: int, db: Db, token: string, email: string, name: string, hash: string): Db {
    match AcceptVerdict(cfg, now, db, token, email)
    case None => Accepted(db, token, name, hash)
    case Some(f) =>
      if f == EmailExists || f == DatabaseError then db.(nextUser := LinkedUser(db, db.invites[token]).1) else db
  }

  /** The first three statements, up to the user to link. */
  lemma AcceptPrepares(cfg: Config, now: int, db: Db, token: string, email: string, name: string, hash: string)
    requires InviteVerdict(cfg, db, now, token, email).None? && db.invites[token].role in db.roles
    ensures var start := AcceptStartStep(cfg, Alone(now, db), 0, token, email, name, hash);
            var s := AcceptNextStep(AcceptNextStep(start, 0), 0);
            var invite := db.invites[token];
            && s.log == [] && s.clock == now && s.db == db.(nextUser := LinkedUser(db, invite).1)
            && s.accepts == map[0 := Accept(
                 UserReady, token, invite, email, now, DisplayName(name, invite.displayName), hash,
                 db.roles[invite.role], db.accounts,
                 LinkedUser(db, invite).0, LinkedUser(db, invite).1 != db.nextUser, 0)]
  {
  }

  lemma CheckedAccept(s: System, t: Accept)
    requires s.accepts == map[0 := t] && t.phase == UserReady && t.token in s.db.invites
    ensures var s' := AcceptNextStep(s, 0);
            if Taken(t.seen, t.invite.email, t.user) then s' == s.(accepts := map[])
            else s' == s.(accepts := map[0 := t.(phase := Checked)])
  {
  }

  lemma InsertedAccept(s: System, t: Accept)
    requires s.accepts == map[0 := t] && t.phase == Checked && t.token in s.db.invites
    ensures var s' := AcceptNextStep(s, 0);
            if Taken(s.db.accounts, t.invite.email, t.user) || (!t.ownUser && t.user !in s.db.users)
            then s' == s.(accepts := map[])
            else s'.accepts == map[0 := t.(phase := AccountInserted, account := s.db.nextAccount)]
                 && s'.db == s.db.(nextAccount := s.db.nextAccount + 1) && s'.log == s.log
  {
  }

  /** The last three statements and the commit. */
  lemma AcceptFinishes(s: System, t: Accept)
    requires s.accepts == map[0 := t] && t.phase == UserReady && t.token in s.db.invites && t.seen == s.db.accounts
    ensures var s' := AcceptNextStep(AcceptNextStep(AcceptNextStep(s, 0), 0), 0);
            if Taken(s.db.accounts, t.invite.email, t.user) || (!t.ownUser && t.user !in s.db.users)
            then s'.db == s.db && s'.log == s.log
            else
              && s'.log == s.log + [InviteAccepted(t.token, s.db.nextAccount, t.user, t.email, t.at),
                                    PasswordSet(t.user, t.hash, None)]
              && s'.db == s.db.(
                   users := if t.ownUser then s.db.users[t.user := User(t.name, false)] else s.db.users,
                   accounts := s.db.accounts[s.db.nextAccount := Account(t.user, t.invite.email, t.hash, true)],
                   nextAccount := s.db.nextAccount + 1,
                   accountRoles := s.db.accountRoles + {(s.db.nextAccount, t.role)},
                   invites := s.db.invites[t.token := s.db.invites[t.token].(consumed := true)])
  {
    CheckedAccept(s, t);
    if !Taken(s.db.accounts, t.invite.email, t.user) {
      InsertedAccept(AcceptNextStep(s, 0), t.(phase := Checked));
    }
  }

  /** The machine's statements, run in a row, do exactly that. */
  lemma AcceptAloneOutcome(cfg: Config, now: int, db: Db, token: string, email: string, name: string, hash: string)
    ensures var s := AcceptAlone(cfg, now, db, token, email, name, hash);
            && s.db == AfterAccept(cfg, now, db, token, email, name, hash)
            && s.log == if AcceptVerdict(cfg, now, db, token, email).Some? then []
                        else [InviteAccepted(token, db.nextAccount, LinkedUser(db, db.invites[token]).0, email, now),
                              PasswordSet(LinkedUser(db, db.invites[token]).0, hash, None)]
  {
    if InviteVerdict(cfg, db, now, token, email).None? {
      if db.invites[token].role in db.roles {
        AcceptPrepares(cfg, now, db, token, email, name, hash);
        var start := AcceptStartStep(cfg, Alone(now, db), 0, token, email, name, hash);
        var s := AcceptNextStep(AcceptNextStep(start, 0), 0);
        AcceptFinishes(s, s.accepts[0]);
      } else {
        MissingRoleEndsTheAccept(cfg, now, db, token, email, name, hash);
      }
    }
  }

  lemma MissingRoleEndsTheAccept(
    cfg: Config, now: int, db: Db, token: string, email: string, name: string, hash: string)
    requires InviteVerdict(cfg, db, now, token, email).None? && db.invites[token].role !in db.roles
    ensures AcceptAlone(cfg, now, db, token, email, name, hash) == Alone(now, db)
  {
  }

  class Store {
    const cfg: Config
    const tokenHash: string -> string
    var users: map<int, User>
    var nextUser: int
    var accounts: map<int, Account>
    var nextAccount: int
    var roles: map<string, int>
    var accountRoles: set<(int, int)>
    var sessions: map<string, Session>
    var invites: map<string, Invite>

    constructor (c: Config, hash: string -> string, roleIds: map<string, int>)
      ensures cfg == c && tokenHash == hash && Tables() == Fresh(roleIds).db
    {
      cfg, tokenHash := c, hash;
      users, nextUser, accounts, nextAccount := map[], 1, map[], 1;
      roles, accountRoles, sessions, invites := roleIds, {}, map[], map[];
    }

    ghost function Tables(): Db
      reads this
    {
      Db(users, nextUser, accounts, nextAccount, roles, accountRoles, sessions, invites)
    }

    // ----- Sessions -----

    method CreateSession(now: int, user: int, raw: string) returns (ok: bool)
      modifies this`sessions
      ensures ok == (tokenHash(raw) !in old(sessions) && user in users)
      ensures var ttl := if cfg.idleTtl < cfg.absTtl then cfg.idleTtl else cfg.absTtl;
              sessions == if !ok then old(sessions)
                          else old(sessions)[tokenHash(raw) := Session(user, now, now + ttl, now + cfg.absTtl, false)]
      ensures Tables() == LoginAlone(cfg, now, old(Tables()), user, tokenHash(raw)).db
    {
      var absolute := now + cfg.absTtl;
      var slide := now + cfg.idleTtl;
      if slide > absolute {
        slide := absolute;
      }
      var hash := tokenHash(raw);
      if hash in sessions || user !in users {
        return false;
      }
      sessions := sessions[hash := Session(user, now, slide, absolute, false)];
      return true;
    }

    method ValidateSession(now: int, raw: string) returns (r: Result<int, SessionFailure>)
      modifies this`sessions
      ensures var s := ValidateAlone(cfg, now, old(Tables()), tokenHash(raw));
              && Tables() == s.db
              && (r.Ok? ==> s.log == [Validated(tokenHash(raw), r.value, now, 0)])
              && (r.Err? ==> s.log == [])
      ensures var h := tokenHash(raw);
              r == if h !in old(sessions) || !Alive(users, old(sessions)[h].user) then Err(SessionNotFound)
                   else if old(sessions)[h].revoked then Err(SessionRevoked)
                   else if now >= old(sessions)[h].absolute || now >= old(sessions)[h].expires then Err(SessionExpired)
                   else Ok(old(sessions)[h].user)
      ensures r.Err? ==> sessions == old(sessions)
      ensures r.Ok? ==>
                var h := tokenHash(raw);
                var row := old(sessions)[h];
                var slid := if now + cfg.idleTtl < row.absolute then now + cfg.idleTtl else row.absolute;
                sessions == old(sessions)[h := row.(expires := slid)]
    {
      var hash := tokenHash(raw);
      if hash !in sessions || !Alive(users, sessions[hash].user) {
        return Err(SessionNotFound);
      }
      var row := sessions[hash];
      if row.revoked {
        return Err(SessionRevoked);
      }
      if now >= row.absolute || now >= row.expires {
        return Err(SessionExpired);
      }
      var slide := now + cfg.idleTtl;
      if slide > row.absolute {
        slide := row.absolute;
      }
      if !sessions[hash].revoked {
        sessions := sessions[hash := sessions[hash].(expires := slide)];
      }
      return Ok(row.user);
    }

    method RevokeSession(raw: string)
      modifies this`sessions
      ensures sessions == RevokeThese(old(sessions), {tokenHash(raw)})
      ensures sessions.Keys == old(sessions).Keys
      ensures forall t :: t in sessions ==>
                if t == tokenHash(raw) then sessions[t] == old(sessions)[t].(revoked := true)
                else sessions[t] == old(sessions)[t]
    {
      var hash := tokenHash(raw);
      if hash in sessions && !sessions[hash].revoked {
        sessions := sessions[hash := sessions[hash].(revoked := true)];
      }
    }

    /** One UPDATE over all rows of a user; it reports how many rows it changed. */
    method RevokeAllSessions(user: int) returns (affected: nat)
      modifies this`sessions
      ensures sessions == RevokeThese(old(sessions), SessionsOf(old(sessions), user))
      ensures sessions.Keys == old(sessions).Keys
      ensures forall t :: t in sessions ==>
                if old(sessions)[t].user == user then sessions[t] == old(sessions)[t].(revoked := true)
                else sessions[t] == old(sessions)[t]
      ensures affected == |set t | t in old(sessions) && old(sessions)[t].user == user && !old(sessions)[t].revoked|
    {
      ghost var was := sessions;
      ghost var changed: set<string> := {};
      var todo := sessions.Keys;
      affected := 0;
      while todo != {}
        invariant todo <= sessions.Keys == was.Keys
        invariant forall t :: t in todo ==> sessions[t] == was[t]
        invariant forall t :: t in sessions && t !in todo ==>
                    sessions[t] == if was[t].user == user then was[t].(revoked := true) else was[t]
        invariant changed == set t | t in was && t !in todo && was[t].user == user && !was[t].revoked
        invariant affected == |changed|
        decreases |todo|
      {
        var t :| t in todo;
        todo := todo - {t};
        if sessions[t].user == user && !sessions[t].revoked {
          sessions := sessions[t := sessions[t].(revoked := true)];
          changed := changed + {t};
          affected := affected + 1;
        }
      }
      assert changed == set t | t in was && was[t].user == user && !was[t].revoked;
    }

    // ----- Accounts -----

    method FindByEmail(email: string) returns (r: Option<(int, string)>)
      ensures r.Some? ==> exists a :: IsLoginRow(Tables(), a, email)
                                      && r.value == (accounts[a].linkedUser, accounts[a].passwordHash)
      ensures r.None? ==> forall a :: !IsLoginRow(Tables(), a, email)
      ensures r.Some? ==> exists a ::
                && a in accounts && accounts[a].email == email && accounts[a].active
                && accounts[a].linkedUser == r.value.0 && accounts[a].passwordHash == r.value.1
                && r.value.0 in users && !users[r.value.0].deleted
      ensures r.None? ==> forall a :: a in accounts && accounts[a].email == email && accounts[a].active ==>
                accounts[a].linkedUser in users ==> users[accounts[a].linkedUser].deleted
    {
      if a :| && a in accounts && accounts[a].email == email
              && accounts[a].active && Alive(users, accounts[a].linkedUser)
      {
        assert IsLoginRow(Tables(), a, email);
        return Some((accounts[a].linkedUser, accounts[a].passwordHash));
      }
      return None;
    }

    /** The hash against which a signed-in user's password is verified. */
    method FindPasswordHash(user: int) returns (r: Option<string>)
      ensures r.Some? ==> exists a :: IsPasswordRow(Tables(), a, user) && r.value == accounts[a].passwordHash
      ensures r.None? ==> forall a :: !IsPasswordRow(Tables(), a, user)
      ensures r.Some? ==> && user in users && !users[user].deleted
                          && exists a :: a in accounts && accounts[a].linkedUser == user && accounts[a].active
                                         && accounts[a].passwordHash == r.value
      ensures r.None? ==> forall a :: a in accounts && accounts[a].linkedUser == user && accounts[a].active ==>
                user in users ==> users[user].deleted
    {
      if a :| a in accounts && accounts[a].linkedUser == user && accounts[a].active && Alive(users, user) {
        assert IsPasswordRow(Tables(), a, user);
        return Some(accounts[a].passwordHash);
      }
      return None;
    }

    /** A user and its account in one transaction; a conflict puts the user back, but for its spent id. */
    method RegisterUser(email: string, name: string, hash: string) returns (r: Option<int>)
      modifies this
      ensures Tables() == RegisterStep(Alone(0, old(Tables())), email, name, hash).db
      ensures r == if exists a :: a in old(accounts) && (|| old(accounts)[a].email == email
                                                         || old(accounts)[a].linkedUser == old(nextUser)) then None
                   else Some(old(nextUser))
      ensures nextUser == old(nextUser) + 1
      ensures users == if r.None? then old(users) else old(users)[r.value := User(name, false)]
      ensures accounts == if r.None? then old(accounts)
                          else old(accounts)[old(nextAccount) := Account(r.value, email, hash, true)]
      ensures sessions == old(sessions) && invites == old(invites) && accountRoles == old(accountRoles)
    {
      var savedUsers := users;
      var user := nextUser;
      users := users[user := User(name, false)];
      nextUser := nextUser + 1;
      if exists a :: a in accounts && (accounts[a].email == email || accounts[a].linkedUser == user) {
        users := savedUsers;
        return None;
      }
      accounts := accounts[nextAccount := Account(user, email, hash, true)];
      nextAccount := nextAccount + 1;
      return Some(user);
    }

    /** The join of roles, account roles, accounts and users. */
    method PlatformRoleNames(user: int) returns (names: set<string>)
      ensures names == RoleNames(Tables(), user)
      ensures forall name :: name in names <==>
                && name in roles && user in users && !users[user].deleted
                && exists a :: a in accounts && accounts[a].linkedUser == user && accounts[a].active
                               && (a, roles[name]) in accountRoles
    {
      names := set name, a | name in roles && a in accounts && (a, roles[name]) in accountRoles
        && accounts[a].linkedUser == user && accounts[a].active && Alive(users, user) :: name;
    }

    method UpdatePasswordHash(user: int, hash: string) returns (found: bool)
      modifies this`accounts
      ensures found == (Alive(users, user) && HasAccount(old(accounts), user))
      ensures Tables() == UpdateHash(old(Tables()), user, hash)
      ensures found <==> && user in users && !users[user].deleted
                         && exists a :: a in old(accounts) && old(accounts)[a].linkedUser == user
      ensures accounts.Keys == old(accounts).Keys
      ensures forall a :: a in accounts ==>
                accounts[a] == if found && old(accounts)[a].linkedUser == user
                               then old(accounts)[a].(passwordHash := hash) else old(accounts)[a]
    {
      found := Alive(users, user) && exists a :: a in accounts && accounts[a].linkedUser == user;
      if found {
        accounts := SetHash(accounts, user, hash);
      }
    }

    /** Soft delete: three UPDATEs in one transaction. */
    method DeleteUser(user: int) returns (existed: bool)
      modifies this
      ensures existed == (user in old(users))
      ensures Tables() == AuthTables.DeleteUser(old(Tables()), user)
      ensures users == if existed then old(users)[user := old(users)[user].(deleted := true)] else old(users)
      ensures var now := existed && !old(users)[user].deleted;
              && sessions.Keys == old(sessions).Keys && accounts.Keys == old(accounts).Keys
              && (forall t :: t in sessions ==>
                    if now && old(sessions)[t].user == user then sessions[t] == old(sessions)[t].(revoked := true)
                    else sessions[t] == old(sessions)[t])
              && (forall a :: a in accounts ==>
                    if now && old(accounts)[a].linkedUser == user then accounts[a] == old(accounts)[a].(active := false)
                    else accounts[a] == old(accounts)[a])
              && invites == old(invites) && accountRoles == old(accountRoles)
    {
      if user !in users || users[user].deleted {
        return user in users;
      }
      users := users[user := users[user].(deleted := true)];
      var _ := RevokeAllSessions(user);
      accounts := Suspend(accounts, user);
      return true;
    }

    // ----- Invites -----

    method CreateInvite(token: string, invite: Invite) returns (ok: bool)
      modifies this`invites
      ensures ok == (token !in old(invites))
      ensures Tables() == AddInviteStep(Alone(0, old(Tables())), token, invite).db
      ensures invites == if ok then old(invites)[token := invite.(consumed := false)] else old(invites)
    {
      if token in invites {
        return false;
      }
      invites := invites[token := invite.(consumed := false)];
      return true;
    }

    /** The checks of an invite, under its lock. */
    method CheckInvite(now: int, token: string, email: string) returns (failure: Option<InviteFailure>)
      ensures failure == InviteVerdict(cfg, Tables(), now, token, email)
    {
      if token !in invites {
        return Some(InviteNotFound);
      }
      var invite := invites[token];
      if invite.consumed {
        return Some(InviteUsed);
      }
      if now >= invite.expires {
        return Some(InviteExpired);
      }
      if !cfg.sameEmail(invite.email, email) {
        return Some(EmailMismatch);
      }
      return None;
    }

    /** The user and the account of an accept; a failure puts back what was inserted, but for the spent id. */
    method InsertAccepted(token: string, name: string, hash: string) returns (r: Result<int, InviteFailure>)
      requires token in invites && invites[token].role in roles
      modifies this
      ensures var (user, next) := LinkedUser(old(Tables()), old(invites)[token]);
              if Taken(old(accounts), old(invites)[token].email, user) then
                r == Err(EmailExists) && Tables() == old(Tables()).(nextUser := next)
              else if next == old(nextUser) && user !in old(users) then
                r == Err(DatabaseError) && Tables() == old(Tables()).(nextUser := next)
              else r == Ok(user) && Tables() == Accepted(old(Tables()), token, name, hash)
    {
      var invite := invites[token];
      var savedUsers := users;
      var user;
      if invite.linkedUser.Some? && invite.linkedUser.value > 0 {
        user := invite.linkedUser.value;
      } else {
        user := nextUser;
        users := users[user := User(DisplayName(name, invite.displayName), false)];
        nextUser := nextUser + 1;
      }
      if exists a :: a in accounts && (accounts[a].email == invite.email || accounts[a].linkedUser == user) {
        users := savedUsers;
        return Err(EmailExists);
      }
      if user !in users {
        users := savedUsers;
        return Err(DatabaseError);
      }
      var account := nextAccount;
      accounts := accounts[account := Account(user, invite.email, hash, true)];
      nextAccount := nextAccount + 1;
      accountRoles := accountRoles + {(account, roles[invite.role])};
      invites := invites[token := invite.(consumed := true)];
      return Ok(user);
    }

    /** The statements change the tables one by one; whatever fails leaves them as they were, but for a spent id. */
    method AcceptInvite(now: int, token: string, email: string, name: string, hash: string)
      returns (r: Result<int, InviteFailure>)
      modifies this
      ensures match AcceptVerdict(cfg, now, old(Tables()), token, email)
              case Some(f) => r == Err(f)
              case None => r == Ok(LinkedUser(old(Tables()), old(invites)[token]).0)
      ensures Tables() == AfterAccept(cfg, now, old(Tables()), token, email, name, hash)
      ensures var linked := Links(old(invites), token);
              var user := if linked then old(invites)[token].linkedUser.value else old(nextUser);
              r == if token !in old(invites) then Err(InviteNotFound)
                   else if old(invites)[token].consumed then Err(InviteUsed)
                   else if old(invites)[token].expires <= now then Err(InviteExpired)
                   else if !cfg.sameEmail(old(invites)[token].email, email) then Err(EmailMismatch)
                   else if old(invites)[token].role !in roles then Err(RoleNotFound)
                   else if exists a :: a in old(accounts) && (|| old(accounts)[a].email == old(invites)[token].email
                                                              || old(accounts)[a].linkedUser == user) then
                     Err(EmailExists)
                   else if linked && user !in old(users) then Err(DatabaseError)
                   else Ok(user)
      ensures r.Err? ==> users == old(users) && accounts == old(accounts) && accountRoles == old(accountRoles)
                         && invites == old(invites) && sessions == old(sessions)
      ensures r.Ok? ==>
                var invite := old(invites)[token];
                && accounts == old(accounts)[old(nextAccount) := Account(r.value, invite.email, hash, true)]
                && accountRoles == old(accountRoles) + {(old(nextAccount), roles[invite.role])}
                && invites == old(invites)[token := invite.(consumed := true)] && sessions == old(sessions)
                && users == if Links(old(invites), token) then old(users)
                            else old(users)[r.value := User(DisplayName(name, invite.displayName), false)]
    {
      var failure := CheckInvite(now, token, email);
      if failure.Some? {
        return Err(failure.value);
      }
      if invites[token].role !in roles {
        return Err(RoleNotFound);
      }
      r := InsertAccepted(token, name, hash);
    }
  }
}
