/** Invites, and the accounts that accepting them creates, under any interleaving. */
module OperatorInvites {
  import opened AuthTables
  import opened AuthSystem

  // ----- The invariant, table by table -----

  predicate DifferentKeys(a: Account, b: Account) {
    a.email != b.email && a.linkedUser != b.linkedUser
  }

  /** No two accounts share an email or a user, and ids are spent in increasing order. */
  ghost predicate AccountsOk(accounts: map<int, Account>, next: int) {
    && (forall a :: a in accounts ==> a < next)
    && (forall a, b :: a in accounts && b in accounts && a != b ==> DifferentKeys(accounts[a], accounts[b]))
  }

  predicate Holds(t: Accept) { t.phase == AccountInserted }

  /** Uncommitted accounts: their ids and keys are free of committed and of one another's. */
  ghost predicate HeldOk(accepts: map<nat, Accept>, accounts: map<int, Account>, next: int) {
    && (forall p :: p in accepts && Holds(accepts[p]) ==>
          var t := accepts[p];
          t.account < next && t.account !in accounts && !Taken(accounts, t.invite.email, t.user))
    && (forall p, q :: p in accepts && q in accepts && p != q ==>
          Holds(accepts[p]) && Holds(accepts[q]) ==>
          && accepts[p].account != accepts[q].account
          && accepts[p].invite.email != accepts[q].invite.email
          && accepts[p].user != accepts[q].user)
  }

  /** Each transaction under way holds an unconsumed invite of its own, and the role that the invite names. */
  ghost predicate LocksOk(accepts: map<nat, Accept>, invites: map<string, Invite>, roles: map<string, int>) {
    && (forall p :: p in accepts ==>
          var t := accepts[p];
          && t.token in invites && invites[t.token] == t.invite && !t.invite.consumed
          && (t.phase != InviteLocked ==> t.invite.role in roles && roles[t.invite.role] == t.role))
    && (forall p, q :: p in accepts && q in accepts && p != q ==> accepts[p].token != accepts[q].token)
  }

  /** What an accepted invite has left behind. */
  ghost predicate AcceptedOk(e: Entry, db: Db)
    requires e.InviteAccepted?
  {
    && e.invite in db.invites && db.invites[e.invite].consumed
    && e.account in db.accounts
    && db.accounts[e.account].email == db.invites[e.invite].email
    && db.accounts[e.account].linkedUser == e.user
    && db.invites[e.invite].role in db.roles
    && (forall r :: (e.account, r) in db.accountRoles <==> r == db.roles[db.invites[e.invite].role])
  }

  ghost predicate HistoryOk(log: seq<Entry>, db: Db) {
    && (forall i :: 0 <= i < |log| && log[i].InviteAccepted? ==> AcceptedOk(log[i], db))
    && (forall i, j :: 0 <= i < j < |log| && log[i].InviteAccepted? && log[j].InviteAccepted? ==>
          log[i].invite != log[j].invite && log[i].account != log[j].account)
    && (forall t :: t in db.invites && db.invites[t].consumed ==> Consumed(log, t))
    && (forall x :: x in db.accountRoles ==> x.0 in db.accounts && CreatedByInvite(log, x.0))
  }

  ghost predicate CreatedByInvite(log: seq<Entry>, account: int) {
    exists i :: 0 <= i < |log| && log[i].InviteAccepted? && log[i].account == account
  }

  ghost predicate Consumed(log: seq<Entry>, token: string) {
    exists i :: 0 <= i < |log| && log[i].InviteAccepted? && log[i].invite == token
  }

  ghost predicate Inv(s: System) {
    && AccountsOk(s.db.accounts, s.db.nextAccount)
    && HeldOk(s.accepts, s.db.accounts, s.db.nextAccount)
    && LocksOk(s.accepts, s.db.invites, s.db.roles)
    && HistoryOk(s.log, s.db)
  }

  // ----- Steps that do not touch an invite or an account's keys -----

  predicate SameKeys(was: map<int, Account>, later: map<int, Account>) {
    && later.Keys == was.Keys
    && forall a :: a in was ==> later[a].email == was[a].email && later[a].linkedUser == was[a].linkedUser
  }

  /** Nothing about invites, keys or transactions changes. */
  predicate Ordinary(s: System, s': System) {
    && s'.accepts == s.accepts && s.log <= s'.log
    && SameKeys(s.db.accounts, s'.db.accounts) && s'.db.nextAccount == s.db.nextAccount
    && s'.db.invites == s.db.invites && s'.db.roles == s.db.roles && s'.db.accountRoles == s.db.accountRoles
    && forall n :: |s.log| <= n < |s'.log| ==> !s'.log[n].InviteAccepted?
  }

  lemma OrdinaryStepKeeps(s: System, s': System)
    requires Inv(s) && Ordinary(s, s')
    ensures Inv(s')
  {
  }

  // ----- New accounts -----

  /** An account under free keys, reserved by nobody else. */
  lemma NewAccountIsOk(
    accepts: map<nat, Accept>, accounts: map<int, Account>, next: int, id: int, a: Account, next': int)
    requires AccountsOk(accounts, next) && HeldOk(accepts, accounts, next) && next <= next' && id < next'
    requires !Taken(accounts, a.email, a.linkedUser) && id !in accounts
    requires forall p :: p in accepts && Holds(accepts[p]) ==>
               accepts[p].account != id && accepts[p].invite.email != a.email && accepts[p].user != a.linkedUser
    ensures AccountsOk(accounts[id := a], next') && HeldOk(accepts, accounts[id := a], next')
  {
  }

  lemma HistoryWithNewAccount(log: seq<Entry>, db: Db, log': seq<Entry>, db': Db, id: int, a: Account)
    requires log <= log' && forall n :: |log| <= n < |log'| ==> !log'[n].InviteAccepted?
    requires HistoryOk(log, db) && id !in db.accounts && db'.accounts == db.accounts[id := a]
    requires db'.invites == db.invites && db'.roles == db.roles && db'.accountRoles == db.accountRoles
    ensures HistoryOk(log', db')
  {
  }

  lemma RegisterKeeps(s: System, email: string, name: string, hash: string)
    requires Inv(s)
    ensures Inv(RegisterStep(s, email, name, hash))
  {
    var u, id := s.db.nextUser, s.db.nextAccount;
    var a := Account(u, email, hash, true);
    if !Reserved(s.accepts, email, u) {
      var s' := RegisterStep(s, email, name, hash);
      if Taken(s.db.accounts, email, u) {
        assert Ordinary(s, s');
        OrdinaryStepKeeps(s, s');
      } else {
        assert s'.db.accounts == s.db.accounts[id := a];
        NewAccountIsOk(s.accepts, s.db.accounts, id, id, a, id + 1);
        hide AccountsOk, HeldOk, Taken, Reserved;
        HistoryWithNewAccount(s.log, s.db, s'.log, s'.db, id, a);
      }
    }
  }

  // ----- Transactions -----

  lemma RollbackKeeps(s: System, pid: nat)
    requires Inv(s)
    ensures Inv(Rollback(s, pid))
  {
  }

  /** A transaction goes on, on the same invite, without an account so far. */
  lemma AdvanceKeeps(s: System, pid: nat, t: Accept)
    requires Inv(s) && pid in s.accepts && !Holds(t)
    requires t.token == s.accepts[pid].token && t.invite == s.accepts[pid].invite
    requires t.phase != InviteLocked ==> t.invite.role in s.db.roles && s.db.roles[t.invite.role] == t.role
    ensures Inv(Advance(s, pid, t))
  {
  }

  lemma StartKeeps(cfg: Config, s: System, pid: nat, token: string, email: string, name: string, hash: string)
    requires Inv(s)
    ensures Inv(AcceptStartStep(cfg, s, pid, token, email, name, hash))
  {
    hide HistoryOk, AccountsOk, Taken, DisplayName;
  }

  lemma PrepareKeeps(s: System, pid: nat)
    requires Inv(s) && pid in s.accepts && s.accepts[pid].phase == RoleRead
    ensures Inv(PrepareUser(s, pid, s.accepts[pid]))
  {
    var t := s.accepts[pid];
    var s' := PrepareUser(s, pid, t);
    AdvanceKeeps(s, pid, s'.accepts[pid]);
  }

  lemma HeldWithNewAccount(accepts: map<nat, Accept>, accounts: map<int, Account>, next: int, pid: nat, t: Accept)
    requires HeldOk(accepts, accounts, next) && AccountsOk(accounts, next)
    requires Holds(t) && t.account == next
    requires !Reserved(accepts, t.invite.email, t.user) && !Taken(accounts, t.invite.email, t.user)
    ensures HeldOk(accepts[pid := t], accounts, next + 1)
  {
  }

  lemma InsertKeeps(s: System, pid: nat)
    requires Inv(s) && pid in s.accepts && s.accepts[pid].phase == Checked
    ensures Inv(InsertAccount(s, pid, s.accepts[pid]))
  {
    var t := s.accepts[pid];
    var s' := InsertAccount(s, pid, t);
    RollbackKeeps(s, pid);
    if s' != s && s' != Rollback(s, pid) {
      HeldWithNewAccount(s.accepts, s.db.accounts, s.db.nextAccount, pid, s'.accepts[pid]);
      assert LocksOk(s'.accepts, s.db.invites, s.db.roles);
    }
  }

  lemma CommittedHistoryIsOk(s: System, pid: nat)
    requires Inv(s) && pid in s.accepts && Holds(s.accepts[pid])
    ensures var s' := Commit(s, pid, s.accepts[pid]); HistoryOk(s'.log, s'.db)
  {
    var t, n := s.accepts[pid], |s.log|;
    var s' := Commit(s, pid, t);
    var e := s'.log[n];
    assert forall i :: 0 <= i < n ==> s'.log[i] == s.log[i];
    assert AcceptedOk(e, s'.db);
    forall i | 0 <= i < n && s.log[i].InviteAccepted?
      ensures AcceptedOk(s.log[i], s'.db) && s.log[i].invite != t.token && s.log[i].account != t.account
    {
      assert AcceptedOk(s.log[i], s.db);
    }
    ConsumedInvitesAreLogged(s, pid);
  }

  lemma ConsumedInvitesAreLogged(s: System, pid: nat)
    requires Inv(s) && pid in s.accepts && Holds(s.accepts[pid])
    ensures var s' := Commit(s, pid, s.accepts[pid]);
            forall x :: x in s'.db.invites && s'.db.invites[x].consumed ==> Consumed(s'.log, x)
  {
    hide AcceptedOk, HeldOk, AccountsOk;
    var t, s' := s.accepts[pid], Commit(s, pid, s.accepts[pid]);
    forall x | x in s'.db.invites && s'.db.invites[x].consumed ensures Consumed(s'.log, x) {
      if x == t.token {
        assert s'.log[|s.log|].invite == x;
      } else {
        var i :| 0 <= i < |s.log| && s.log[i].InviteAccepted? && s.log[i].invite == x;
        assert s'.log[i] == s.log[i];
      }
    }
  }

  lemma CommitKeeps(s: System, pid: nat)
    requires Inv(s) && pid in s.accepts && Holds(s.accepts[pid])
    ensures Inv(Commit(s, pid, s.accepts[pid]))
  {
    var t := s.accepts[pid];
    var s' := Commit(s, pid, t);
    CommittedHistoryIsOk(s, pid);
    RollbackKeeps(s, pid);
    NewAccountIsOk(s.accepts - {pid}, s.db.accounts, s.db.nextAccount, t.account,
                   Account(t.user, t.invite.email, t.hash, true), s.db.nextAccount);
    assert LocksOk(s'.accepts, s'.db.invites, s'.db.roles);
  }

  lemma NextKeeps(s: System, pid: nat)
    requires Inv(s)
    ensures Inv(AcceptNextStep(s, pid))
  {
    if pid in s.accepts && s.accepts[pid].token in s.db.invites {
      var t := s.accepts[pid];
      RollbackKeeps(s, pid);
      match t.phase
      case InviteLocked =>
        if t.invite.role in s.db.roles {
          AdvanceKeeps(s, pid, t.(phase := RoleRead, role := s.db.roles[t.invite.role], seen := s.db.accounts));
        }
      case RoleRead => PrepareKeeps(s, pid);
      case UserReady => AdvanceKeeps(s, pid, t.(phase := Checked));
      case Checked => InsertKeeps(s, pid);
      case AccountInserted => CommitKeeps(s, pid);
    }
  }

  lemma AccountUpdatesAreOrdinary(cfg: Config, s: System, e: Event)
    requires e.ChangeUpdate? || e.Delete?
    ensures Ordinary(s, Step(cfg, s, e))
  {
  }

  lemma SessionStepsAreOrdinary(cfg: Config, s: System, e: Event)
    requires e.LoginLookup? || e.ChangeLookup? || e.LoginInsert? || e.Select? || e.Finish? || e.Logout? || e.RevokeAll?
    ensures Ordinary(s, Step(cfg, s, e))
  {
    hide AcceptNextStep, SelectSession, UpdateExpiry, Slide, NewSession, RevokeThese, SessionsOf;
  }

  lemma StepKeepsInv(cfg: Config, s: System, e: Event)
    requires Inv(s)
    ensures Inv(Step(cfg, s, e))
  {
    match e
    case Register(email, name, hash) => RegisterKeeps(s, email, name, hash);
    case AddInvite(token, invite) =>
    case AcceptStart(pid, token, email, name, hash) => StartKeeps(cfg, s, pid, token, email, name, hash);
    case AcceptNext(pid) => NextKeeps(s, pid);
    case AcceptAbort(pid) => RollbackKeeps(s, pid);
    case Tick(_) => OrdinaryStepKeeps(s, Step(cfg, s, e));
    case AddUser(_) => OrdinaryStepKeeps(s, Step(cfg, s, e));
    case ChangeUpdate(_, _) =>
      AccountUpdatesAreOrdinary(cfg, s, e);
      OrdinaryStepKeeps(s, Step(cfg, s, e));
    case Delete(_) =>
      AccountUpdatesAreOrdinary(cfg, s, e);
      OrdinaryStepKeeps(s, Step(cfg, s, e));
    case _ =>
      SessionStepsAreOrdinary(cfg, s, e);
      OrdinaryStepKeeps(s, Step(cfg, s, e));
  }

  lemma {:induction false} InvHolds(cfg: Config, roles: map<string, int>, run: seq<Event>)
    ensures Inv(After(cfg, Fresh(roles), run))
  {
    if |run| > 0 {
      InvHolds(cfg, roles, run[..|run| - 1]);
      StepKeepsInv(cfg, After(cfg, Fresh(roles), run[..|run| - 1]), run[|run| - 1]);
    }
  }

  // ----- What every run guarantees -----

  /**
    An invite is consumed exactly if one entry of the log accepts it; that entry is the
    only one, and its account exists under the invite's email, linked to its user, and
    carries exactly the invited role.
  */
  lemma InviteCreatesOneAccount(cfg: Config, roles: map<string, int>, run: seq<Event>, token: string)
    requires token in After(cfg, Fresh(roles), run).db.invites
    ensures var s := After(cfg, Fresh(roles), run);
            s.db.invites[token].consumed <==>
            exists i :: && 0 <= i < |s.log| && s.log[i].InviteAccepted? && s.log[i].invite == token
                        && AcceptedOk(s.log[i], s.db)
                        && forall j :: 0 <= j < |s.log| && s.log[j].InviteAccepted? && j != i ==>
                             s.log[j].invite != token && s.log[j].account != s.log[i].account
  {
    InvHolds(cfg, roles, run);
    var s := After(cfg, Fresh(roles), run);
    if s.db.invites[token].consumed {
      var i :| 0 <= i < |s.log| && s.log[i].InviteAccepted? && s.log[i].invite == token;
      assert AcceptedOk(s.log[i], s.db);
    }
  }

  /** In every reachable state accounts differ pairwise in email and in linked user. */
  lemma AccountsStayDistinct(cfg: Config, roles: map<string, int>, run: seq<Event>, a: int, b: int)
    requires a in After(cfg, Fresh(roles), run).db.accounts && b in After(cfg, Fresh(roles), run).db.accounts && a != b
    ensures var accounts := After(cfg, Fresh(roles), run).db.accounts;
            accounts[a].email != accounts[b].email && accounts[a].linkedUser != accounts[b].linkedUser
  {
    InvHolds(cfg, roles, run);
  }

  /** In every reachable state the roles of a live user are those of its one account, while that is active. */
  lemma RolesAreThoseOfTheAccount(cfg: Config, roles: map<string, int>, run: seq<Event>, user: int, name: string)
    ensures var db := After(cfg, Fresh(roles), run).db;
            name in RoleNames(db, user)
            <==> && user in db.users && !db.users[user].deleted && name in db.roles
                 && exists a :: && a in db.accounts && db.accounts[a].linkedUser == user && db.accounts[a].active
                                && (a, db.roles[name]) in db.accountRoles
                                && forall b :: b in db.accounts && db.accounts[b].linkedUser == user ==> b == a
  {
    InvHolds(cfg, roles, run);
    var db := After(cfg, Fresh(roles), run).db;
    hide After;
    if name in RoleNames(db, user) {
      var a :| a in db.accounts && (a, db.roles[name]) in db.accountRoles && IsPasswordRow(db, a, user);
      assert forall b :: b in db.accounts && b != a ==> DifferentKeys(db.accounts[a], db.accounts[b]);
    }
    if a :| && a in db.accounts && db.accounts[a].linkedUser == user && db.accounts[a].active && name in db.roles
            && (a, db.roles[name]) in db.accountRoles && user in db.users && !db.users[user].deleted
    {
      assert IsPasswordRow(db, a, user);
    }
  }

  /**
    A live user with an active account that an invite created has the invited role, under
    whatever names it has, and no other; one whose account no invite created has none.
  */
  lemma RolesAreTheInvitedOnes(cfg: Config, roles: map<string, int>, run: seq<Event>, a: int, name: string)
    requires var db := After(cfg, Fresh(roles), run).db;
             && a in db.accounts && db.accounts[a].active
             && db.accounts[a].linkedUser in db.users && !db.users[db.accounts[a].linkedUser].deleted
    ensures var s := After(cfg, Fresh(roles), run);
            name in RoleNames(s.db, s.db.accounts[a].linkedUser)
            <==> exists i :: && 0 <= i < |s.log| && s.log[i].InviteAccepted? && s.log[i].account == a
                             && s.log[i].invite in s.db.invites && s.db.invites[s.log[i].invite].role in s.db.roles
                             && name in s.db.roles
                             && s.db.roles[name] == s.db.roles[s.db.invites[s.log[i].invite].role]
  {
    InvHolds(cfg, roles, run);
    RolesAreThoseOfTheAccount(cfg, roles, run, After(cfg, Fresh(roles), run).db.accounts[a].linkedUser, name);
    var s := After(cfg, Fresh(roles), run);
    hide After, RoleNames;
    assert forall b :: b in s.db.accounts && b != a ==> DifferentKeys(s.db.accounts[a], s.db.accounts[b]);
    if name in s.db.roles && (a, s.db.roles[name]) in s.db.accountRoles {
      assert CreatedByInvite(s.log, a);
      var i :| 0 <= i < |s.log| && s.log[i].InviteAccepted? && s.log[i].account == a;
      assert AcceptedOk(s.log[i], s.db);
    }
    if i :| 0 <= i < |s.log| && s.log[i].InviteAccepted? && s.log[i].account == a {
      assert AcceptedOk(s.log[i], s.db);
    }
  }

  /** The tables are as before, but for ids that were handed out. */
  predicate NoTrace(s: System, s': System) {
    s'.log == s.log && s'.db.(nextUser := s.db.nextUser, nextAccount := s.db.nextAccount) == s.db
  }

  lemma AcceptPhasesLeaveNoTrace(s: System, pid: nat, t: Accept)
    ensures NoTrace(s, ReadRole(s, pid, t)) && NoTrace(s, PrepareUser(s, pid, t))
    ensures NoTrace(s, CheckConflict(s, pid, t)) && NoTrace(s, InsertAccount(s, pid, t))
  {
    hide Taken, Reserved;
  }

  /** Every step of an accept but its commit leaves the tables as they were, inserted users included. */
  lemma UncommittedStepsLeaveNoTrace(cfg: Config, s: System, e: Event)
    requires e.AcceptStart? || e.AcceptNext? || e.AcceptAbort?
    ensures var s' := Step(cfg, s, e);
            NoTrace(s, s') || (|s'.log| == |s.log| + 2 && s'.log[|s.log|].InviteAccepted?)
  {
    if e.AcceptNext? && e.pid in s.accepts {
      AcceptPhasesLeaveNoTrace(s, e.pid, s.accepts[e.pid]);
      hide ReadRole, PrepareUser, CheckConflict, InsertAccount;
    }
  }
}
