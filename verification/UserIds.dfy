/** User ids are never handed out twice, so that no step brings a deleted user back. */
module UserIds {
  import opened AuthTables
  import opened AuthSystem

  /** The transaction has inserted a user of its own that nobody else sees yet. */
  predicate HoldsUser(t: Accept) {
    t.ownUser && t.phase != InviteLocked && t.phase != RoleRead
  }

  ghost predicate IdsOk(users: map<int, User>, nextUser: int, accepts: map<nat, Accept>) {
    && (forall u :: u in users ==> u < nextUser)
    && (forall p :: p in accepts && HoldsUser(accepts[p]) ==> accepts[p].user < nextUser && accepts[p].user !in users)
    && (forall p, q :: p in accepts && q in accepts && p != q ==>
          HoldsUser(accepts[p]) && HoldsUser(accepts[q]) ==> accepts[p].user != accepts[q].user)
  }

  ghost predicate Inv(s: System) {
    IdsOk(s.db.users, s.db.nextUser, s.accepts)
  }

  /** Users stay, and deleted ones stay deleted. */
  predicate UsersMoveOn(was: map<int, User>, later: map<int, User>) {
    forall u :: u in was ==> u in later && (was[u].deleted ==> later[u].deleted)
  }

  /** Steps that insert no user, and hand out no id that stays in use. */
  lemma IdsStayOk(users: map<int, User>, next: int, accepts: map<nat, Accept>,
                  users': map<int, User>, next': int, accepts': map<nat, Accept>)
    requires IdsOk(users, next, accepts) && next <= next' && users'.Keys == users.Keys
    requires forall p :: p in accepts' && HoldsUser(accepts'[p]) ==>
               p in accepts && HoldsUser(accepts[p]) && accepts[p].user == accepts'[p].user
    ensures IdsOk(users', next', accepts')
  {
  }

  lemma NewUserIsOk(users: map<int, User>, next: int, accepts: map<nat, Accept>, user: User)
    requires IdsOk(users, next, accepts)
    ensures IdsOk(users[next := user], next + 1, accepts)
    ensures UsersMoveOn(users, users[next := user])
  {
  }

  lemma AdvanceKeeps(s: System, pid: nat, t: Accept)
    requires Inv(s)
    requires HoldsUser(t) ==> pid in s.accepts && HoldsUser(s.accepts[pid]) && s.accepts[pid].user == t.user
    ensures Inv(Advance(s, pid, t))
  {
  }

  lemma RollbackKeeps(s: System, pid: nat)
    requires Inv(s)
    ensures Inv(Rollback(s, pid))
  {
  }

  lemma PrepareKeeps(s: System, pid: nat, t: Accept)
    requires Inv(s)
    ensures Inv(PrepareUser(s, pid, t))
  {
  }

  lemma InsertKeeps(s: System, pid: nat, t: Accept)
    requires Inv(s) && pid in s.accepts && t == s.accepts[pid] && t.phase == Checked
    ensures Inv(InsertAccount(s, pid, t))
  {
  }

  lemma CommitKeeps(s: System, pid: nat, t: Accept)
    requires Inv(s) && pid in s.accepts && t == s.accepts[pid] && t.phase == AccountInserted && t.token in s.db.invites
    ensures Inv(Commit(s, pid, t)) && UsersMoveOn(s.db.users, Commit(s, pid, t).db.users)
  {
  }

  lemma NextKeepsInv(s: System, pid: nat)
    requires Inv(s) && pid in s.accepts && s.accepts[pid].token in s.db.invites
    ensures Inv(AcceptNextStep(s, pid)) && UsersMoveOn(s.db.users, AcceptNextStep(s, pid).db.users)
  {
    var t := s.accepts[pid];
    RollbackKeeps(s, pid);
    match t.phase
    case InviteLocked =>
      if t.invite.role in s.db.roles {
        AdvanceKeeps(s, pid, t.(phase := RoleRead, role := s.db.roles[t.invite.role], seen := s.db.accounts));
      }
    case RoleRead => PrepareKeeps(s, pid, t);
    case UserReady => AdvanceKeeps(s, pid, t.(phase := Checked));
    case Checked => InsertKeeps(s, pid, t);
    case AccountInserted => CommitKeeps(s, pid, t);
  }

  lemma NextOfNone(s: System, pid: nat)
    ensures !(pid in s.accepts && s.accepts[pid].token in s.db.invites) ==> AcceptNextStep(s, pid) == s
  {
  }

  lemma DeleteKeeps(s: System, user: int)
    requires Inv(s)
    ensures Inv(DeleteStep(s, user)) && UsersMoveOn(s.db.users, DeleteStep(s, user).db.users)
  {
  }

  /** A registration inserts a user under the next id, or spends the id, or waits. */
  lemma RegisterOutcome(s: System, email: string, name: string, hash: string)
    ensures var s' := RegisterStep(s, email, name, hash);
            && s'.accepts == s.accepts
            && (|| (s'.db.users == s.db.users && s.db.nextUser <= s'.db.nextUser)
                || (s'.db.users == s.db.users[s.db.nextUser := User(name, false)]
                    && s'.db.nextUser == s.db.nextUser + 1))
  {
    hide Taken, Reserved;
  }

  lemma RegisterKeeps(s: System, email: string, name: string, hash: string)
    requires Inv(s)
    ensures Inv(RegisterStep(s, email, name, hash))
    ensures UsersMoveOn(s.db.users, RegisterStep(s, email, name, hash).db.users)
  {
    hide RegisterStep, IdsOk, UsersMoveOn;
    var s' := RegisterStep(s, email, name, hash);
    RegisterOutcome(s, email, name, hash);
    UsersStay(s.db.users);
    if s'.db.users == s.db.users {
      IdsStayOk(s.db.users, s.db.nextUser, s.accepts, s'.db.users, s'.db.nextUser, s'.accepts);
    } else {
      NewUserIsOk(s.db.users, s.db.nextUser, s.accepts, User(name, false));
    }
  }

  lemma UsersStay(users: map<int, User>)
    ensures UsersMoveOn(users, users)
  {
  }

  lemma StartKeeps(cfg: Config, s: System, pid: nat, token: string, email: string, name: string, hash: string)
    requires Inv(s)
    ensures Inv(AcceptStartStep(cfg, s, pid, token, email, name, hash))
    ensures UsersMoveOn(s.db.users, AcceptStartStep(cfg, s, pid, token, email, name, hash).db.users)
  {
  }

  lemma OthersTouchNoUsers(cfg: Config, s: System, e: Event)
    requires !(e.AddUser? || e.Register? || e.Delete? || e.AcceptStart? || e.AcceptNext? || e.AcceptAbort?)
    ensures var s' := Step(cfg, s, e);
            s'.accepts == s.accepts && s'.db.nextUser == s.db.nextUser && s'.db.users == s.db.users
  {
    hide Taken, Reserved, DisplayName, IsLoginRow, IsPasswordRow, SelectSession, NewSession, AcceptNextStep;
  }

  lemma StepKeepsInv(cfg: Config, s: System, e: Event)
    requires Inv(s)
    ensures Inv(Step(cfg, s, e)) && UsersMoveOn(s.db.users, Step(cfg, s, e).db.users)
  {
    hide IdsOk, UsersMoveOn, RegisterStep, DeleteStep, AcceptStartStep, LookupStep, InsertSessionStep, SelectStep;
    hide FinishStep, ChangeLookupStep, ChangeUpdateStep, AddInviteStep, AcceptNextStep;
    UsersStay(s.db.users);
    match e
    case AddUser(name) => NewUserIsOk(s.db.users, s.db.nextUser, s.accepts, User(name, false));
    case Register(email, name, hash) => RegisterKeeps(s, email, name, hash);
    case Delete(user) => DeleteKeeps(s, user);
    case AcceptStart(pid, token, email, name, hash) => StartKeeps(cfg, s, pid, token, email, name, hash);
    case AcceptNext(pid) =>
      NextOfNone(s, pid);
      if pid in s.accepts && s.accepts[pid].token in s.db.invites {
        NextKeepsInv(s, pid);
      }
    case AcceptAbort(pid) => RollbackKeeps(s, pid);
    case _ =>
      OthersTouchNoUsers(cfg, s, e);
  }

  lemma {:induction false} InvHolds(cfg: Config, roles: map<string, int>, run: seq<Event>)
    ensures Inv(After(cfg, Fresh(roles), run))
  {
    if |run| > 0 {
      InvHolds(cfg, roles, run[..|run| - 1]);
      StepKeepsInv(cfg, After(cfg, Fresh(roles), run[..|run| - 1]), run[|run| - 1]);
    }
  }

  /** From any reachable state on, users stay, and deleted ones stay deleted. */
  lemma {:induction false} DeletionIsFinal(cfg: Config, roles: map<string, int>, run: seq<Event>, more: seq<Event>)
    ensures UsersMoveOn(After(cfg, Fresh(roles), run).db.users, After(cfg, Fresh(roles), run + more).db.users)
  {
    if |more| == 0 {
      assert run + more == run;
    } else {
      var before := run + more[..|more| - 1];
      assert (run + more)[..|run + more| - 1] == before;
      DeletionIsFinal(cfg, roles, run, more[..|more| - 1]);
      InvHolds(cfg, roles, before);
      StepKeepsInv(cfg, After(cfg, Fresh(roles), before), more[|more| - 1]);
    }
  }
}
