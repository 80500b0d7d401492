/**
  The tables behind authentication, and what single statements and transactions do to
  them.  Tokens appear only as their hashes; a password hash is the stored text.
*/
module AuthTables {
  import opened Common
  import opened Text

  datatype User = User(name: string, deleted: bool)

  datatype Account = Account(linkedUser: int, email: string, passwordHash: string, active: bool)

  datatype Session = Session(user: int, createdAt: int, expires: int, absolute: int, revoked: bool)

  datatype Invite = Invite(
    email: string, displayName: string, role: string, linkedUser: Option<int>, expires: int, consumed: bool)

  datatype Db = Db(
    users: map<int, User>, nextUser: int,
    accounts: map<int, Account>, nextAccount: int,
    roles: map<string, int>,                  // name to id
    accountRoles: set<(int, int)>,            // account and role
    sessions: map<string, Session>,           // by token hash
    invites: map<string, Invite>)             // by token hash

  /** The two session lifetimes, and when two email addresses are the same. */
  datatype Config = Config(idleTtl: int, absTtl: int, sameEmail: (string, string) -> bool)

  predicate Alive(users: map<int, User>, u: int) {
    u in users && !users[u].deleted
  }

  // ----- Sessions -----

  /** The SELECT of a validation: rows of deleted users are not returned. */
  function SelectSession(db: Db, token: string): Option<Session> {
    if token in db.sessions && Alive(db.users, db.sessions[token].user) then Some(db.sessions[token]) else None
  }

  /** The sliding expiry, cut at the absolute one. */
  function Slide(cfg: Config, absolute: int, now: int): int {
    if now + cfg.idleTtl > absolute then absolute else now + cfg.idleTtl
  }

  function UpdateExpiry(sessions: map<string, Session>, token: string, expires: int): map<string, Session> {
    if token in sessions && !sessions[token].revoked then sessions[token := sessions[token].(expires := expires)]
    else sessions
  }

  function NewSession(cfg: Config, user: int, now: int): Session {
    Session(user, now, Slide(cfg, now + cfg.absTtl, now), now + cfg.absTtl, false)
  }

  function RevokeThese(sessions: map<string, Session>, tokens: set<string>): (r: map<string, Session>)
    ensures r.Keys == sessions.Keys
  {
    map t | t in sessions :: if t in tokens then sessions[t].(revoked := true) else sessions[t]
  }

  function SessionsOf(sessions: map<string, Session>, user: int): (tokens: set<string>)
    ensures tokens <= sessions.Keys
  {
    set t | t in sessions && sessions[t].user == user
  }

  // ----- Accounts -----

  /** The account that login finds under an email. */
  predicate IsLoginRow(db: Db, account: int, email: string) {
    && account in db.accounts && db.accounts[account].email == email
    && db.accounts[account].active && Alive(db.users, db.accounts[account].linkedUser)
  }

  /** The account whose hash is read to change a user's password. */
  predicate IsPasswordRow(db: Db, account: int, user: int) {
    && account in db.accounts && db.accounts[account].linkedUser == user
    && db.accounts[account].active && Alive(db.users, user)
  }

  function RoleNames(db: Db, user: int): set<string> {
    set name, account | name in db.roles && account in db.accounts && (account, db.roles[name]) in db.accountRoles
      && IsPasswordRow(db, account, user) :: name
  }

  function SetHash(accounts: map<int, Account>, user: int, hash: string): (r: map<int, Account>)
    ensures r.Keys == accounts.Keys
  {
    map a | a in accounts :: if accounts[a].linkedUser == user then accounts[a].(passwordHash := hash) else accounts[a]
  }

  predicate HasAccount(accounts: map<int, Account>, user: int) {
    exists a :: a in accounts && accounts[a].linkedUser == user
  }

  /** The UPDATE of a password hash: it matches nothing for a deleted user, or one without an account. */
  function UpdateHash(db: Db, user: int, hash: string): Db {
    if Alive(db.users, user) && HasAccount(db.accounts, user)
    then db.(accounts := SetHash(db.accounts, user, hash))
    else db
  }

  function Suspend(accounts: map<int, Account>, user: int): (r: map<int, Account>)
    ensures r.Keys == accounts.Keys
  {
    map a | a in accounts :: if accounts[a].linkedUser == user then accounts[a].(active := false) else accounts[a]
  }

  /** Some account has this email or belongs to this user. */
  predicate Taken(accounts: map<int, Account>, email: string, user: int) {
    exists a :: a in accounts && (accounts[a].email == email || accounts[a].linkedUser == user)
  }

  /** The soft delete: the user, all sessions and the account, in one transaction. */
  function DeleteUser(db: Db, user: int): Db {
    if !Alive(db.users, user) then db
    else db.(
      users := db.users[user := db.users[user].(deleted := true)],
      sessions := RevokeThese(db.sessions, SessionsOf(db.sessions, user)),
      accounts := Suspend(db.accounts, user))
  }

  // ----- Invites -----

  datatype InviteFailure =
    | InviteNotFound | InviteUsed | InviteExpired | EmailMismatch | RoleNotFound | EmailExists | DatabaseError

  function DisplayName(override: string, invited: string): (s: string)
    ensures s != "" && |s| <= 100
    ensures TrimSpace(override) != "" ==> s <= TrimSpace(override) && (|s| < 100 ==> s == TrimSpace(override))
    ensures TrimSpace(override) == "" && TrimSpace(invited) != "" ==>
              s <= TrimSpace(invited) && (|s| < 100 ==> s == TrimSpace(invited))
    ensures TrimSpace(override) == "" && TrimSpace(invited) == "" ==> s == "Operator"
  {
    var name := if TrimSpace(override) != "" then TrimSpace(override)
                else if TrimSpace(invited) != "" then TrimSpace(invited)
                else "Operator";
    if |name| > 100 then name[..100] else name
  }
}
