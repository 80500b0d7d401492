/** What a password change guarantees about logins, and which sessions survive it. */
module PasswordChange {
  import opened Common
  import opened AuthTables
  import opened AuthSystem
  import opened OneUserRuns
  import UserIds
  import OperatorInvites
  import SessionHistory

  /** Where this part of the log last sets the password of a user; -1 if nowhere. */
  function LastSet(log: seq<Entry>, user: int): (j: int)
    ensures -1 <= j < |log|
    ensures j >= 0 ==> log[j].PasswordSet? && log[j].user == user
    ensures forall i :: j < i < |log| ==> !(log[i].PasswordSet? && log[i].user == user)
  {
    if |log| == 0 then -1
    else
      var e := log[|log| - 1];
      if e.PasswordSet? && e.user == user then |log| - 1 else LastSet(log[..|log| - 1], user)
  }

  /** The hash is the one that this part of the log set last for the user. */
  ghost predicate Current(log: seq<Entry>, user: int, hash: string) {
    LastSet(log, user) >= 0 && log[LastSet(log, user)].hash == hash
  }

  // ----- The invariant -----

  /** Every stored hash is the last one set for its user. */
  ghost predicate StoredIsLastSet(accounts: map<int, Account>, log: seq<Entry>) {
    forall a :: a in accounts ==> Current(log, accounts[a].linkedUser, accounts[a].passwordHash)
  }

  ghost predicate LookupsAreCurrent(log: seq<Entry>) {
    forall n :: 0 <= n < |log| && log[n].LookedUp? ==> Current(log[..n], log[n].user, log[n].hash)
  }

  /** Who has a password set has an account, and a change has its lookup. */
  ghost predicate SetsOk(accounts: map<int, Account>, log: seq<Entry>) {
    forall n :: 0 <= n < |log| && log[n].PasswordSet? ==>
      && HasAccount(accounts, log[n].user)
      && (log[n].verified.Some? ==>
            log[n].verified.value < n
            && log[log[n].verified.value].LookedUp? && log[log[n].verified.value].user == log[n].user)
  }

  ghost predicate Inv(s: System) {
    StoredIsLastSet(s.db.accounts, s.log) && LookupsAreCurrent(s.log) && SetsOk(s.db.accounts, s.log)
  }

  /** Entries that set no password of the user leave the last one where it was. */
  lemma {:induction false} CurrentStays(log: seq<Entry>, more: seq<Entry>, user: int, hash: string)
    requires Current(log, user, hash)
    requires forall k :: 0 <= k < |more| ==> !(more[k].PasswordSet? && more[k].user == user)
    ensures Current(log + more, user, hash)
  {
    if |more| == 0 {
      assert log + more == log;
    } else {
      assert (log + more)[..|log + more| - 1] == log + more[..|more| - 1];
      CurrentStays(log, more[..|more| - 1], user, hash);
    }
  }

  lemma SetIsCurrent(log: seq<Entry>, user: int, hash: string, verified: Option<nat>)
    ensures Current(log + [PasswordSet(user, hash, verified)], user, hash)
  {
  }

  lemma LookupsStayCurrent(log: seq<Entry>, more: seq<Entry>)
    requires LookupsAreCurrent(log)
    requires forall k :: 0 <= k < |more| && more[k].LookedUp? ==> k == 0 && Current(log, more[0].user, more[0].hash)
    ensures LookupsAreCurrent(log + more)
  {
    forall n | 0 <= n < |log + more| && (log + more)[n].LookedUp?
      ensures Current((log + more)[..n], (log + more)[n].user, (log + more)[n].hash)
    {
      if n < |log| {
        assert (log + more)[..n] == log[..n];
      } else {
        assert (log + more)[n] == more[n - |log|];
        assert (log + more)[..n] == log;
      }
    }
  }

  // ----- Every step keeps the invariant -----

  predicate SameHashes(was: map<int, Account>, later: map<int, Account>) {
    later.Keys == was.Keys
    && forall a :: a in was ==> later[a].linkedUser == was[a].linkedUser && later[a].passwordHash == was[a].passwordHash
  }

  /** Accounts stay, with their users. */
  predicate AccountsStay(was: map<int, Account>, later: map<int, Account>) {
    forall a :: a in was ==> a in later && later[a].linkedUser == was[a].linkedUser
  }

  lemma SetsStayOk(was: map<int, Account>, later: map<int, Account>, log: seq<Entry>, log': seq<Entry>)
    requires SetsOk(was, log) && AccountsStay(was, later) && log <= log'
    requires forall n :: |log| <= n < |log'| && log'[n].PasswordSet? ==>
               && HasAccount(later, log'[n].user)
               && (log'[n].verified.Some? ==>
                     log'[n].verified.value < |log|
                     && log[log'[n].verified.value].LookedUp? && log[log'[n].verified.value].user == log'[n].user)
    ensures SetsOk(later, log')
  {
    forall n | 0 <= n < |log| && log[n].PasswordSet? ensures HasAccount(later, log[n].user) {
      var a :| a in was && was[a].linkedUser == log[n].user;
      assert later[a].linkedUser == log[n].user;
    }
  }

  /** Steps that set no password. */
  lemma NoChangeKeeps(s: System, s': System, more: seq<Entry>)
    requires Inv(s) && s'.log == s.log + more && SameHashes(s.db.accounts, s'.db.accounts)
    requires forall k :: 0 <= k < |more| ==> !more[k].PasswordSet?
    requires forall k :: 0 <= k < |more| && more[k].LookedUp? ==> k == 0 && Current(s.log, more[0].user, more[0].hash)
    ensures Inv(s')
  {
    hide Current;
    LookupsStayCurrent(s.log, more);
    SetsStayOk(s.db.accounts, s'.db.accounts, s.log, s'.log);
    forall a | a in s'.db.accounts
      ensures Current(s'.log, s'.db.accounts[a].linkedUser, s'.db.accounts[a].passwordHash)
    {
      assert Current(s.log, s.db.accounts[a].linkedUser, s.db.accounts[a].passwordHash);
      CurrentStays(s.log, more, s.db.accounts[a].linkedUser, s.db.accounts[a].passwordHash);
    }
  }

  /** Steps that set the hash of all accounts of one user, be they old or new. */
  lemma ChangeKeeps(s: System, s': System, prefix: seq<Entry>, user: int, hash: string, verified: Option<nat>)
    requires Inv(s) && s'.log == s.log + prefix + [PasswordSet(user, hash, verified)]
    requires forall k :: 0 <= k < |prefix| ==> !prefix[k].PasswordSet? && !prefix[k].LookedUp?
    requires forall a :: a in s'.db.accounts ==>
               if s'.db.accounts[a].linkedUser == user then s'.db.accounts[a].passwordHash == hash
               else a in s.db.accounts && s'.db.accounts[a].linkedUser == s.db.accounts[a].linkedUser
                    && s'.db.accounts[a].passwordHash == s.db.accounts[a].passwordHash
    requires AccountsStay(s.db.accounts, s'.db.accounts) && HasAccount(s'.db.accounts, user)
    requires verified.Some? ==>
               verified.value < |s.log| && s.log[verified.value].LookedUp? && s.log[verified.value].user == user
    ensures Inv(s')
  {
    hide Current, HasAccount;
    LookupsStayCurrent(s.log, prefix);
    LookupsStayCurrent(s.log + prefix, [PasswordSet(user, hash, verified)]);
    SetIsCurrent(s.log + prefix, user, hash, verified);
    SetsStayOk(s.db.accounts, s'.db.accounts, s.log, s'.log);
    OthersStayCurrent(s, s', prefix, user, hash, verified);
  }

  lemma OthersStayCurrent(s: System, s': System, prefix: seq<Entry>, user: int, hash: string, verified: Option<nat>)
    requires StoredIsLastSet(s.db.accounts, s.log) && s'.log == s.log + prefix + [PasswordSet(user, hash, verified)]
    requires forall k :: 0 <= k < |prefix| ==> !prefix[k].PasswordSet?
    requires forall a :: a in s'.db.accounts && s'.db.accounts[a].linkedUser != user ==>
               a in s.db.accounts && s'.db.accounts[a].linkedUser == s.db.accounts[a].linkedUser
               && s'.db.accounts[a].passwordHash == s.db.accounts[a].passwordHash
    ensures forall a :: a in s'.db.accounts && s'.db.accounts[a].linkedUser != user ==>
              Current(s'.log, s'.db.accounts[a].linkedUser, s'.db.accounts[a].passwordHash)
  {
    hide Current;
    forall a | a in s'.db.accounts && s'.db.accounts[a].linkedUser != user
      ensures Current(s'.log, s'.db.accounts[a].linkedUser, s'.db.accounts[a].passwordHash)
    {
      var other, was := s.db.accounts[a].linkedUser, s.db.accounts[a].passwordHash;
      assert Current(s.log, other, was);
      CurrentStays(s.log, prefix, other, was);
      CurrentStays(s.log + prefix, [PasswordSet(user, hash, verified)], other, was);
    }
  }

  lemma UpdateKeeps(s: System, pid: nat, hash: string)
    requires Inv(s) && SessionHistory.ChecksOk(s.checks, s.log, s.clock)
    ensures Inv(ChangeUpdateStep(s, pid, hash))
  {
    var s' := ChangeUpdateStep(s, pid, hash);
    if s'.log != s.log {
      var k := s.checks[pid];
      assert SessionHistory.CheckOk(k, s.log, s.clock);
      assert s.log + [] == s.log;
      var a :| a in s.db.accounts && s.db.accounts[a].linkedUser == k.user;
      assert s'.db.accounts[a].linkedUser == k.user;
      ChangeKeeps(s, s', [], k.user, hash, Some(k.lookup));
    }
  }

  lemma CommitKeeps(s: System, pid: nat)
    requires Inv(s) && OperatorInvites.Inv(s) && pid in s.accepts && OperatorInvites.Holds(s.accepts[pid])
    ensures Inv(Commit(s, pid, s.accepts[pid]))
  {
    var t, s' := s.accepts[pid], Commit(s, pid, s.accepts[pid]);
    assert !Taken(s.db.accounts, t.invite.email, t.user) && t.account !in s.db.accounts;
    assert s'.db.accounts[t.account].linkedUser == t.user;
    hide OperatorInvites.Inv, Taken, Inv;
    ChangeKeeps(s, s', [InviteAccepted(t.token, t.account, t.user, t.email, t.at)], t.user, t.hash, None);
  }

  lemma NextKeeps(s: System, pid: nat)
    requires Inv(s) && OperatorInvites.Inv(s)
    ensures Inv(AcceptNextStep(s, pid))
  {
    if pid in s.accepts && OperatorInvites.Holds(s.accepts[pid]) && s.accepts[pid].token in s.db.invites {
      CommitKeeps(s, pid);
    } else {
      hide OperatorInvites.Inv, Taken, Reserved;
      assert AcceptNextStep(s, pid).db.accounts == s.db.accounts && AcceptNextStep(s, pid).log == s.log;
    }
  }

  lemma RegisterKeeps(s: System, email: string, name: string, hash: string)
    requires Inv(s) && s.db.nextAccount !in s.db.accounts
    ensures Inv(RegisterStep(s, email, name, hash))
  {
    var s' := RegisterStep(s, email, name, hash);
    if s'.log != s.log {
      assert s.log + [] == s.log;
      assert s'.db.accounts[s.db.nextAccount].linkedUser == s.db.nextUser;
      ChangeKeeps(s, s', [], s.db.nextUser, hash, None);
    }
  }

  lemma ReadHashKeeps(s: System, pid: nat, purpose: Purpose, account: int)
    requires Inv(s) && account in s.db.accounts
    ensures Inv(ReadHash(s, pid, purpose, account))
  {
    var a := s.db.accounts[account];
    NoChangeKeeps(s, ReadHash(s, pid, purpose, account), [LookedUp(a.linkedUser, a.passwordHash)]);
  }

  lemma DeleteKeeps(s: System, user: int)
    requires Inv(s)
    ensures Inv(DeleteStep(s, user))
  {
    if Alive(s.db.users, user) {
      NoChangeKeeps(s, DeleteStep(s, user), [Revoked(SessionsOf(s.db.sessions, user)), Deleted(user)]);
    }
  }

  lemma SessionStepKeeps(cfg: Config, s: System, e: Event)
    requires Inv(s) && (e.LoginInsert? || e.Finish? || e.Logout? || e.RevokeAll?)
    ensures Inv(Step(cfg, s, e))
  {
    var s' := Step(cfg, s, e);
    if s'.log != s.log {
      NoChangeKeeps(s, s', [s'.log[|s.log|]]);
    }
  }

  lemma StepKeepsInv(cfg: Config, s: System, e: Event)
    requires Inv(s) && OperatorInvites.Inv(s) && SessionHistory.ChecksOk(s.checks, s.log, s.clock)
    ensures Inv(Step(cfg, s, e))
  {
    NextAccountIsFree(s);
    hide Current, Inv, OperatorInvites.Inv, SessionHistory.ChecksOk, Taken, Reserved, SelectStep, AddInviteStep;
    hide AcceptStartStep, AddUserStep, AcceptNextStep, RegisterStep, ChangeUpdateStep, DeleteStep;
    match e
    case ChangeUpdate(pid, hash) => UpdateKeeps(s, pid, hash);
    case AcceptNext(pid) => NextKeeps(s, pid);
    case Register(email, name, hash) => RegisterKeeps(s, email, name, hash);
    case LoginLookup(pid, account, email) =>
      if IsLoginRow(s.db, account, email) { ReadHashKeeps(s, pid, SignIn, account); }
    case ChangeLookup(pid, account, user) =>
      if IsPasswordRow(s.db, account, user) { ReadHashKeeps(s, pid, ChangePassword, account); }
    case Delete(user) => DeleteKeeps(s, user);
    case LoginInsert(_, _, _) => SessionStepKeeps(cfg, s, e);
    case Finish(_, _) => SessionStepKeeps(cfg, s, e);
    case Logout(_) => SessionStepKeeps(cfg, s, e);
    case RevokeAll(_) => SessionStepKeeps(cfg, s, e);
    case _ =>
      OthersLeaveHashes(cfg, s, e);
  }

  lemma NextAccountIsFree(s: System)
    requires OperatorInvites.Inv(s)
    ensures s.db.nextAccount !in s.db.accounts
  {
  }

  lemma OthersLeaveHashes(cfg: Config, s: System, e: Event)
    requires e.Tick? || e.AddUser? || e.Select? || e.AddInvite? || e.AcceptStart? || e.AcceptAbort?
    ensures Step(cfg, s, e).log == s.log && Step(cfg, s, e).db.accounts == s.db.accounts
  {
    hide SelectSession, DisplayName, AcceptNextStep;
  }

  lemma {:induction false} InvHolds(cfg: Config, roles: map<string, int>, run: seq<Event>)
    ensures Inv(After(cfg, Fresh(roles), run))
  {
    if |run| > 0 {
      InvHolds(cfg, roles, run[..|run| - 1]);
      OperatorInvites.InvHolds(cfg, roles, run[..|run| - 1]);
      SessionHistory.InvHolds(cfg, roles, run[..|run| - 1]);
      StepKeepsInv(cfg, After(cfg, Fresh(roles), run[..|run| - 1]), run[|run| - 1]);
    }
  }

  // ----- What it guarantees -----

  /**
    Every session comes from a login that looked up the hash last set before its lookup,
    by the registration or invite that created the account or by a change since: a login
    that starts after a password change cannot succeed against the old hash.
  */
  lemma SessionsUseTheCurrentPassword(cfg: Config, roles: map<string, int>, run: seq<Event>, n: nat)
    requires n < |After(cfg, Fresh(roles), run).log| && After(cfg, Fresh(roles), run).log[n].SessionCreated?
    ensures var log := After(cfg, Fresh(roles), run).log;
            var k := log[n].lookup;
            && k < n && log[k].LookedUp? && log[k].user == log[n].user
            && Current(log[..k], log[n].user, log[k].hash)
  {
    InvHolds(cfg, roles, run);
    SessionHistory.EverySessionHasItsLogin(cfg, roles, run, n);
  }

  /** A change, too, verified the hash last set before its lookup; what came after that it overwrites unseen. */
  lemma ChangesVerifyTheCurrentPassword(cfg: Config, roles: map<string, int>, run: seq<Event>, n: nat)
    requires n < |After(cfg, Fresh(roles), run).log| && After(cfg, Fresh(roles), run).log[n].PasswordSet?
    requires After(cfg, Fresh(roles), run).log[n].verified.Some?
    ensures var log := After(cfg, Fresh(roles), run).log;
            var k := log[n].verified.value;
            && k < n && log[k].LookedUp? && log[k].user == log[n].user
            && Current(log[..k], log[n].user, log[k].hash)
  {
    InvHolds(cfg, roles, run);
  }

  lemma AcceptsOnlyAddToTheLog(s: System, pid: nat)
    ensures s.log <= AcceptNextStep(s, pid).log
  {
    SessionHistory.AcceptsAreQuiet(s, pid);
  }

  lemma StepsOnlyAddToTheLog(cfg: Config, s: System, e: Event)
    ensures s.log <= Step(cfg, s, e).log
  {
    hide AcceptNextStep, Reserved, Taken, DisplayName, IsLoginRow, NewSession, DeleteUser, SetHash;
    if e.AcceptNext? {
      AcceptsOnlyAddToTheLog(s, e.pid);
    }
  }

  /** What a continuation adds to the log. */
  lemma {:induction false} LogGrows(cfg: Config, s: System, more: seq<Event>)
    ensures s.log <= After(cfg, s, more).log
  {
    hide Step;
    if |more| > 0 {
      LogGrows(cfg, s, more[..|more| - 1]);
      StepsOnlyAddToTheLog(cfg, After(cfg, s, more[..|more| - 1]), more[|more| - 1]);
    }
  }

  /** An unrevoked session of the user, created by entry n of the log. */
  predicate IsLiveSession(s: System, token: string, user: int, n: nat) {
    && token in s.db.sessions && s.db.sessions[token].user == user && !s.db.sessions[token].revoked
    && n < |s.log| && s.log[n].SessionCreated? && s.log[n].token == token && s.log[n].user == user
  }

  lemma RevokeAllRevokes(cfg: Config, roles: map<string, int>, run: seq<Event>, user: int)
    ensures var s := After(cfg, Fresh(roles), run + [RevokeAll(user)]);
            forall t :: t in s.db.sessions && s.db.sessions[t].user == user ==> s.db.sessions[t].revoked
  {
    assert (run + [RevokeAll(user)])[..|run|] == run;
  }

  /**
    All sessions of a user are revoked, at some time after its password was set at
    position i of the log.  An unrevoked session that exists any time later was not in
    the table right after that.  Its login used the hash that was current at its lookup,
    which is older than position i exactly if the lookup is.
  */
  lemma OnlyEarlierLookupsKeepTheOldPassword(
    cfg: Config, roles: map<string, int>, run: seq<Event>, i: nat, user: int, more: seq<Event>, token: string, n: nat)
    requires var log := After(cfg, Fresh(roles), run).log;
             i < |log| && log[i].PasswordSet? && log[i].user == user
    requires IsLiveSession(After(cfg, Fresh(roles), run + [RevokeAll(user)] + more), token, user, n)
    ensures var s1 := After(cfg, Fresh(roles), run + [RevokeAll(user)]);
            var log := After(cfg, Fresh(roles), run + [RevokeAll(user)] + more).log;
            && token !in s1.db.sessions && |s1.log| <= n
            && var k := log[n].lookup;
               && k < n && log[k].LookedUp? && Current(log[..k], user, log[k].hash)
               && (LastSet(log[..k], user) < i <==> k < i)
  {
    hide IsLiveSession, Current, Step;
    var mid := run + [RevokeAll(user)];
    var s1, s := After(cfg, Fresh(roles), mid), After(cfg, Fresh(roles), mid + more);
    LiveSessionIsNew(cfg, roles, run, user, more, token, n);
    SessionOfIsLive(s, token, user, n);
    SessionsUseTheCurrentPassword(cfg, roles, mid + more, n);
    SetStaysInTheLog(cfg, roles, run, i, [RevokeAll(user)] + more);
    assert run + ([RevokeAll(user)] + more) == mid + more;
    LookupSplits(s.log, user, i, s.log[n].lookup);
  }

  lemma SessionOfIsLive(s: System, token: string, user: int, n: nat)
    requires IsLiveSession(s, token, user, n)
    ensures n < |s.log| && s.log[n].SessionCreated? && s.log[n].token == token && s.log[n].user == user
  {
  }

  lemma SetStaysInTheLog(cfg: Config, roles: map<string, int>, run: seq<Event>, i: nat, more: seq<Event>)
    requires i < |After(cfg, Fresh(roles), run).log|
    ensures var log, later := After(cfg, Fresh(roles), run).log, After(cfg, Fresh(roles), run + more).log;
            i < |later| && later[i] == log[i]
  {
    AfterBoth(cfg, Fresh(roles), run, more);
    LogGrows(cfg, After(cfg, Fresh(roles), run), more);
  }

  lemma LookupSplits(log: seq<Entry>, user: int, i: nat, k: nat)
    requires i < |log| && k < |log| && log[i].PasswordSet? && log[i].user == user && log[k].LookedUp?
    ensures LastSet(log[..k], user) < i <==> k < i
  {
    if i < k {
      assert log[..k][i] == log[i];
    }
  }

  lemma LiveSessionIsNew(
    cfg: Config, roles: map<string, int>, run: seq<Event>, user: int, more: seq<Event>, token: string, n: nat)
    requires IsLiveSession(After(cfg, Fresh(roles), run + [RevokeAll(user)] + more), token, user, n)
    ensures token !in After(cfg, Fresh(roles), run + [RevokeAll(user)]).db.sessions
    ensures |After(cfg, Fresh(roles), run + [RevokeAll(user)]).log| <= n
  {
    hide After, Step;
    var mid := run + [RevokeAll(user)];
    var s1, s := After(cfg, Fresh(roles), mid), After(cfg, Fresh(roles), mid + more);
    RevokeAllRevokes(cfg, roles, run, user);
    SessionHistory.RevocationIsFinal(cfg, roles, mid, more);
    SessionHistory.InvHolds(cfg, roles, mid);
    AfterBoth(cfg, Fresh(roles), mid, more);
    LogGrows(cfg, s1, more);
  }

  // ----- What goes back to an old password -----

  /**
    Entry n of the log goes back to a lookup of the user before position i: it is one, or
    looked up a hash that a change since i set which goes back to one, or is such a
    change, or the session of a login that does.
  */
  predicate GoesBack(log: seq<Entry>, user: int, i: nat, n: nat)
    requires n < |log|
    decreases n
  {
    match log[n]
    case LookedUp(u, _) =>
      && u == user
      && (n < i || (LastSet(log[..n], user) > i && GoesBack(log, user, i, LastSet(log[..n], user))))
    case PasswordSet(u, _, verified) =>
      u == user && i < n && verified.Some? && verified.value < n && GoesBack(log, user, i, verified.value)
    case SessionCreated(_, u, _, lookup) => u == user && lookup < n && GoesBack(log, user, i, lookup)
    case _ => false
  }

  lemma {:induction false} GoesBackStays(log: seq<Entry>, log': seq<Entry>, user: int, i: nat, n: nat)
    requires n < |log| && log <= log'
    ensures GoesBack(log', user, i, n) == GoesBack(log, user, i, n)
    decreases n
  {
    assert log'[..n] == log[..n] && log'[n] == log[n];
    match log[n]
    case LookedUp(u, _) =>
      if LastSet(log[..n], user) > i { GoesBackStays(log, log', user, i, LastSet(log[..n], user)); }
    case PasswordSet(u, _, verified) =>
      if verified.Some? && verified.value < n { GoesBackStays(log, log', user, i, verified.value); }
    case SessionCreated(_, u, _, lookup) =>
      if lookup < n { GoesBackStays(log, log', user, i, lookup); }
    case _ =>
  }

  /** The stored hash was set since position i by a change that goes back to a lookup before it. */
  predicate StoredGoesBack(log: seq<Entry>, user: int, i: nat) {
    LastSet(log, user) > i && GoesBack(log, user, i, LastSet(log, user))
  }

  /** A login of the user under way, or a change if the user is live, that goes back to a lookup before position i. */
  predicate CheckGoesBack(s: System, user: int, i: nat, p: nat) {
    && p in s.checks && s.checks[p].user == user && s.checks[p].lookup < |s.log|
    && GoesBack(s.log, user, i, s.checks[p].lookup)
    && (s.checks[p].purpose == SignIn || Alive(s.db.users, user))
  }

  /**
    Nothing goes back to a lookup before position i: not the stored hash, no check, no
    session created at `from` or later.
  */
  ghost predicate Clean(s: System, from: nat, user: int, i: nat) {
    && !StoredGoesBack(s.log, user, i)
    && (forall p :: !CheckGoesBack(s, user, i, p))
    && (forall n :: from <= n < |s.log| && s.log[n].SessionCreated? ==> !GoesBack(s.log, user, i, n))
  }

  // ----- Clean states stay clean -----

  lemma {:induction false} LastSetOver(log: seq<Entry>, more: seq<Entry>, user: int)
    requires forall k :: 0 <= k < |more| ==> !(more[k].PasswordSet? && more[k].user == user)
    ensures LastSet(log + more, user) == LastSet(log, user)
  {
    if |more| == 0 {
      assert log + more == log;
    } else {
      assert (log + more)[..|log + more| - 1] == log + more[..|more| - 1];
      LastSetOver(log, more[..|more| - 1], user);
    }
  }

  /** The checks of a later state are old ones, or look up the hash that is stored. */
  predicate ChecksFollow(s: System, s': System) {
    forall p :: p in s'.checks ==>
      || (p in s.checks && s'.checks[p] == s.checks[p])
      || (s'.checks[p].lookup == |s.log| && |s'.log| == |s.log| + 1 && s'.log[|s.log|].LookedUp?)
  }

  /** New entries come from the stored hash, from checks, or from nowhere. */
  ghost predicate EntriesFollow(s: System, s': System) {
    && s.log <= s'.log
    && forall n :: |s.log| <= n < |s'.log| ==>
         match s'.log[n]
         case LookedUp(_, _) => n == |s.log|
         case PasswordSet(u, _, verified) =>
           verified.Some? ==> exists p :: FromCheck(s, p, ChangePassword, u, verified.value)
         case SessionCreated(_, u, _, lookup) => exists p :: FromCheck(s, p, SignIn, u, lookup)
         case _ => true
  }

  predicate FromCheck(s: System, p: nat, purpose: Purpose, user: int, lookup: nat) {
    && p in s.checks && s.checks[p].purpose == purpose && s.checks[p].user == user && s.checks[p].lookup == lookup
    && (purpose == ChangePassword ==> Alive(s.db.users, user))
  }

  /** A user whose password is being checked and who is live was live before. */
  ghost predicate LivesFollow(s: System, s': System) {
    forall p :: p in s.checks && Alive(s'.db.users, s.checks[p].user) ==> Alive(s.db.users, s.checks[p].user)
  }

  lemma OldEntriesStayClean(s: System, s': System, from: nat, user: int, i: nat)
    requires Clean(s, from, user, i) && s.log <= s'.log
    ensures forall n :: from <= n < |s.log| && s'.log[n].SessionCreated? ==> !GoesBack(s'.log, user, i, n)
  {
    forall n | from <= n < |s.log| && s'.log[n].SessionCreated? ensures !GoesBack(s'.log, user, i, n) {
      GoesBackStays(s.log, s'.log, user, i, n);
    }
  }

  lemma NewEntryIsClean(s: System, s': System, from: nat, user: int, i: nat, n: nat)
    requires Clean(s, from, user, i) && i < |s.log| && EntriesFollow(s, s') && |s.log| <= n < |s'.log|
    requires SessionHistory.ChecksOk(s.checks, s.log, s.clock)
    ensures !GoesBack(s'.log, user, i, n)
  {
    match s'.log[n]
    case LookedUp(u, _) =>
      assert s'.log[..n] == s.log;
      if u == user && LastSet(s.log, user) > i {
        GoesBackStays(s.log, s'.log, user, i, LastSet(s.log, user));
      }
    case PasswordSet(u, _, verified) =>
      if u == user && verified.Some? {
        var p :| FromCheck(s, p, ChangePassword, u, verified.value);
        assert SessionHistory.CheckOk(s.checks[p], s.log, s.clock) && !CheckGoesBack(s, user, i, p);
        GoesBackStays(s.log, s'.log, user, i, verified.value);
      }
    case SessionCreated(_, u, _, lookup) =>
      if u == user {
        var p :| FromCheck(s, p, SignIn, u, lookup);
        assert SessionHistory.CheckOk(s.checks[p], s.log, s.clock) && !CheckGoesBack(s, user, i, p);
        GoesBackStays(s.log, s'.log, user, i, lookup);
      }
    case _ =>
  }

  lemma StoredStaysClean(s: System, s': System, from: nat, user: int, i: nat)
    requires Clean(s, from, user, i) && s.log <= s'.log
    requires forall n :: |s.log| <= n < |s'.log| ==> !GoesBack(s'.log, user, i, n)
    ensures !StoredGoesBack(s'.log, user, i)
  {
    var j := LastSet(s'.log, user);
    if i < j < |s.log| {
      assert s'.log == s.log + s'.log[|s.log|..];
      LastSetOver(s.log, s'.log[|s.log|..], user);
      GoesBackStays(s.log, s'.log, user, i, j);
    }
  }

  lemma ChecksStayClean(s: System, s': System, from: nat, user: int, i: nat, p: nat)
    requires Clean(s, from, user, i) && ChecksFollow(s, s') && LivesFollow(s, s') && s.log <= s'.log
    requires SessionHistory.ChecksOk(s.checks, s.log, s.clock)
    requires forall n :: |s.log| <= n < |s'.log| ==> !GoesBack(s'.log, user, i, n)
    ensures !CheckGoesBack(s', user, i, p)
  {
    if p in s'.checks && p in s.checks && s'.checks[p] == s.checks[p] {
      assert SessionHistory.CheckOk(s.checks[p], s.log, s.clock) && !CheckGoesBack(s, user, i, p);
      GoesBackStays(s.log, s'.log, user, i, s.checks[p].lookup);
    }
  }

  lemma FollowingStaysClean(s: System, s': System, from: nat, user: int, i: nat)
    requires Clean(s, from, user, i) && i < |s.log| && SessionHistory.ChecksOk(s.checks, s.log, s.clock)
    requires EntriesFollow(s, s') && ChecksFollow(s, s') && LivesFollow(s, s')
    ensures Clean(s', from, user, i)
  {
    hide GoesBack, CheckGoesBack, StoredGoesBack;
    forall n: nat | |s.log| <= n < |s'.log| ensures !GoesBack(s'.log, user, i, n) {
      NewEntryIsClean(s, s', from, user, i, n);
    }
    OldEntriesStayClean(s, s', from, user, i);
    StoredStaysClean(s, s', from, user, i);
    forall p: nat ensures !CheckGoesBack(s', user, i, p) {
      ChecksStayClean(s, s', from, user, i, p);
    }
  }

  lemma AcceptsFollow(s: System, pid: nat)
    ensures EntriesFollow(s, AcceptNextStep(s, pid)) && ChecksFollow(s, AcceptNextStep(s, pid))
  {
    hide Taken, Reserved;
  }

  lemma StepsFollow(cfg: Config, s: System, e: Event)
    ensures EntriesFollow(s, Step(cfg, s, e)) && ChecksFollow(s, Step(cfg, s, e))
  {
    hide AcceptNextStep, Reserved, Taken, DisplayName, IsLoginRow, NewSession, DeleteUser, SetHash, FromCheck;
    if e.AcceptNext? {
      AcceptsFollow(s, e.pid);
    } else if e.ChangeUpdate? && e.pid in s.checks {
      UpdateFollows(s, e.pid, e.hash);
    } else if e.LoginInsert? && e.pid in s.checks {
      InsertFollows(cfg, s, e.pid, e.token, e.clock);
    }
  }

  lemma UpdateFollows(s: System, pid: nat, hash: string)
    requires pid in s.checks
    ensures EntriesFollow(s, ChangeUpdateStep(s, pid, hash)) && ChecksFollow(s, ChangeUpdateStep(s, pid, hash))
  {
    if s.checks[pid].purpose == ChangePassword && Alive(s.db.users, s.checks[pid].user) {
      assert FromCheck(s, pid, ChangePassword, s.checks[pid].user, s.checks[pid].lookup);
    }
  }

  lemma InsertFollows(cfg: Config, s: System, pid: nat, token: string, clock: int)
    requires pid in s.checks
    ensures var s' := InsertSessionStep(cfg, s, pid, token, clock); EntriesFollow(s, s') && ChecksFollow(s, s')
  {
    if s.checks[pid].purpose == SignIn {
      assert FromCheck(s, pid, SignIn, s.checks[pid].user, s.checks[pid].lookup);
    }
  }

  /** The users of checks under way exist, and no step brings a deleted one back. */
  lemma StepKeepsLives(cfg: Config, s: System, e: Event)
    requires SessionHistory.Inv(cfg, s) && UserIds.Inv(s)
    ensures LivesFollow(s, Step(cfg, s, e))
  {
    UserIds.StepKeepsInv(cfg, s, e);
    hide Step;
    forall p | p in s.checks ensures s.checks[p].user in s.db.users {
      assert SessionHistory.CheckOk(s.checks[p], s.log, s.clock);
    }
  }

  lemma {:induction false} Continuation(cfg: Config, s: System, more: seq<Event>, user: int, i: nat)
    requires i < |s.log| && Clean(s, |s.log|, user, i) && SessionHistory.Inv(cfg, s) && UserIds.Inv(s)
    ensures var s' := After(cfg, s, more);
            s.log <= s'.log && Clean(s', |s.log|, user, i) && SessionHistory.Inv(cfg, s') && UserIds.Inv(s')
  {
    hide Step, Clean, SessionHistory.Inv, UserIds.Inv;
    if |more| > 0 {
      var before, e := After(cfg, s, more[..|more| - 1]), more[|more| - 1];
      Continuation(cfg, s, more[..|more| - 1], user, i);
      StepsOnlyAddToTheLog(cfg, before, e);
      SessionHistory.StepKeepsInv(cfg, before, e);
      UserIds.StepKeepsInv(cfg, before, e);
      StepKeepsClean(cfg, before, e, |s.log|, user, i);
    }
  }

  lemma StepKeepsClean(cfg: Config, s: System, e: Event, from: nat, user: int, i: nat)
    requires i < |s.log| && Clean(s, from, user, i) && SessionHistory.Inv(cfg, s) && UserIds.Inv(s)
    ensures Clean(Step(cfg, s, e), from, user, i)
  {
    StepsFollow(cfg, s, e);
    StepKeepsLives(cfg, s, e);
    hide Step, Clean;
    FollowingStaysClean(s, Step(cfg, s, e), from, user, i);
  }

  // ----- Which states leave no way back to an old password -----

  /** An unrevoked session of the user, or the stored hash, goes back to a lookup before position i. */
  ghost predicate OldPasswordLives(s: System, user: int, i: nat) {
    || StoredGoesBack(s.log, user, i)
    || exists token, n: nat :: IsLiveSession(s, token, user, n) && GoesBack(s.log, user, i, n)
  }

  /** The stored hash goes back to a lookup before position i, or something under way does. */
  ghost predicate WayBack(s: System, user: int, i: nat) {
    StoredGoesBack(s.log, user, i) || exists p :: CheckGoesBack(s, user, i, p)
  }

  lemma {:induction false} LongerThanAll(tokens: set<string>) returns (n: nat)
    ensures forall t :: t in tokens ==> |t| < n
    decreases |tokens|
  {
    if tokens == {} {
      n := 0;
    } else {
      var t :| t in tokens;
      var m := LongerThanAll(tokens - {t});
      n := if |t| < m then m else |t| + 1;
      assert forall x :: x in tokens ==> x == t || x in tokens - {t};
    }
  }

  /** A login under way can insert its session, under a token that is not in the table. */
  lemma LoginCanFinish(cfg: Config, s: System, user: int, i: nat, p: nat) returns (e: Event)
    requires CheckGoesBack(s, user, i, p) && s.checks[p].purpose == SignIn
    requires user in s.db.users && s.checks[p].clock <= s.clock
    ensures OldPasswordLives(Step(cfg, s, e), user, i)
  {
    var length := LongerThanAll(s.db.sessions.Keys);
    var token := seq(length, _ => 'x');
    assert |token| == length;
    assert token !in s.db.sessions;
    e := LoginInsert(p, token, s.clock);
    var s' := InsertSessionStep(cfg, s, p, token, s.clock);
    GoesBackStays(s.log, s'.log, user, i, s.checks[p].lookup);
    assert IsLiveSession(s', token, user, |s.log|) && GoesBack(s'.log, user, i, |s.log|);
  }

  /** A change under way can set its hash. */
  lemma ChangeCanFinish(cfg: Config, s: System, user: int, i: nat, p: nat) returns (e: Event)
    requires CheckGoesBack(s, user, i, p) && s.checks[p].purpose == ChangePassword
    requires HasAccount(s.db.accounts, user) && i < |s.log|
    ensures OldPasswordLives(Step(cfg, s, e), user, i)
  {
    e := ChangeUpdate(p, "");
    var s' := ChangeUpdateStep(s, p, "");
    GoesBackStays(s.log, s'.log, user, i, s.checks[p].lookup);
    assert GoesBack(s'.log, user, i, |s.log|) && LastSet(s'.log, user) == |s.log|;
  }

  lemma WayBackIsTaken(
    cfg: Config, roles: map<string, int>, run: seq<Event>, user: int, i: nat) returns (more: seq<Event>)
    requires WayBack(After(cfg, Fresh(roles), run), user, i)
    requires var log := After(cfg, Fresh(roles), run).log; i < |log| && log[i].PasswordSet? && log[i].user == user
    ensures OldPasswordLives(After(cfg, Fresh(roles), run + more), user, i)
  {
    var s := After(cfg, Fresh(roles), run);
    InvHolds(cfg, roles, run);
    SessionHistory.InvHolds(cfg, roles, run);
    if StoredGoesBack(s.log, user, i) {
      more := [];
      assert run + more == run;
    } else {
      var p :| CheckGoesBack(s, user, i, p);
      assert SessionHistory.CheckOk(s.checks[p], s.log, s.clock);
      assert HasAccount(s.db.accounts, user) && user in s.db.users;
      hide Step, Inv, SessionHistory.Inv, OldPasswordLives, GoesBack;
      var e;
      if s.checks[p].purpose == SignIn {
        e := LoginCanFinish(cfg, s, user, i, p);
      } else {
        e := ChangeCanFinish(cfg, s, user, i, p);
      }
      more := [e];
      OneMore(cfg, Fresh(roles), run, e);
    }
  }

  lemma NoWayBack(cfg: Config, roles: map<string, int>, run: seq<Event>, i: nat, user: int, more: seq<Event>)
    requires i < |After(cfg, Fresh(roles), run).log|
    requires !WayBack(After(cfg, Fresh(roles), run + [RevokeAll(user)]), user, i)
    ensures !OldPasswordLives(After(cfg, Fresh(roles), run + [RevokeAll(user)] + more), user, i)
  {
    hide After, SessionHistory.Inv, UserIds.Inv;
    var mid := run + [RevokeAll(user)];
    var s1, s := After(cfg, Fresh(roles), mid), After(cfg, Fresh(roles), mid + more);
    SetStaysInTheLog(cfg, roles, run, i, [RevokeAll(user)]);
    AfterBoth(cfg, Fresh(roles), mid, more);
    SessionHistory.InvHolds(cfg, roles, mid);
    UserIds.InvHolds(cfg, roles, mid);
    assert Clean(s1, |s1.log|, user, i);
    Continuation(cfg, s1, more, user, i);
    forall token, n: nat | IsLiveSession(s, token, user, n) ensures !GoesBack(s.log, user, i, n) {
      LiveSessionIsNew(cfg, roles, run, user, more, token, n);
    }
  }

  /**
    After a password was set at position i and, at any time since, all sessions of the
    user were revoked: no continuation ever has a valid session or a stored hash that
    goes back to a lookup before position i if and only if the stored hash does not, and
    neither a login nor, for a live user, a change under way does.
  */
  lemma OldPasswordIsGoneExactlyWhen(cfg: Config, roles: map<string, int>, run: seq<Event>, i: nat, user: int)
    requires var log := After(cfg, Fresh(roles), run).log;
             i < |log| && log[i].PasswordSet? && log[i].user == user
    ensures var mid := run + [RevokeAll(user)];
            (forall more :: !OldPasswordLives(After(cfg, Fresh(roles), mid + more), user, i))
            <==> !WayBack(After(cfg, Fresh(roles), mid), user, i)
  {
    hide After, OldPasswordLives, WayBack;
    var mid := run + [RevokeAll(user)];
    if WayBack(After(cfg, Fresh(roles), mid), user, i) {
      SetStaysInTheLog(cfg, roles, run, i, [RevokeAll(user)]);
      var more := WayBackIsTaken(cfg, roles, mid, user, i);
      assert OldPasswordLives(After(cfg, Fresh(roles), mid + more), user, i);
    } else {
      forall more ensures !OldPasswordLives(After(cfg, Fresh(roles), mid + more), user, i) {
        NoWayBack(cfg, roles, run, i, user, more);
      }
    }
  }

  /** A login of the user under way, or a change if the user is live, that looked up before position i. */
  predicate OldCheck(s: System, user: int, i: nat, p: nat) {
    && p in s.checks && s.checks[p].user == user && s.checks[p].lookup < i
    && (s.checks[p].purpose == SignIn || Alive(s.db.users, user))
  }

  /** While the last password is the one set at position i, what goes back is what looked up before. */
  lemma WayBackFromTheLastChange(cfg: Config, s: System, user: int, i: nat)
    requires SessionHistory.Inv(cfg, s) && LastSet(s.log, user) == i
    ensures WayBack(s, user, i) <==> exists p :: OldCheck(s, user, i, p)
  {
    forall p: nat ensures CheckGoesBack(s, user, i, p) <==> OldCheck(s, user, i, p) {
      if p in s.checks && s.checks[p].user == user {
        var k := s.checks[p].lookup;
        assert SessionHistory.CheckOk(s.checks[p], s.log, s.clock);
        LastSetOfPrefix(s.log, user, k);
      }
    }
    hide CheckGoesBack, OldCheck;
  }

  lemma LastSetOfPrefix(log: seq<Entry>, user: int, k: nat)
    requires k <= |log|
    ensures LastSet(log[..k], user) <= LastSet(log, user)
  {
    var j := LastSet(log[..k], user);
    if j >= 0 {
      assert log[j] == log[..k][j];
    }
  }

  lemma RevocationSetsNothing(cfg: Config, s: System, user: int)
    ensures var s' := Step(cfg, s, RevokeAll(user)); s.log <= s'.log && LastSet(s'.log, user) == LastSet(s.log, user)
  {
    LastSetOver(s.log, [Revoked(SessionsOf(s.db.sessions, user))], user);
  }

  /**
    In particular, if the password set at position i is still the last one when all
    sessions are revoked, the old one is gone for good if and only if no login and, for a
    live user, no change that looked up before position i is still under way.
  */
  lemma LastChangeIsFinalExactlyWhen(cfg: Config, roles: map<string, int>, run: seq<Event>, user: int)
    requires LastSet(After(cfg, Fresh(roles), run).log, user) >= 0
    ensures var i := LastSet(After(cfg, Fresh(roles), run).log, user);
            var mid := run + [RevokeAll(user)];
            (forall more :: !OldPasswordLives(After(cfg, Fresh(roles), mid + more), user, i))
            <==> !exists p :: OldCheck(After(cfg, Fresh(roles), mid), user, i, p)
  {
    var s, e := After(cfg, Fresh(roles), run), RevokeAll(user);
    var i := LastSet(s.log, user);
    OneMore(cfg, Fresh(roles), run, e);
    RevocationSetsNothing(cfg, s, user);
    SessionHistory.InvHolds(cfg, roles, run + [e]);
    hide After, Step, OldPasswordLives, WayBack, OldCheck, SessionHistory.Inv;
    WayBackFromTheLastChange(cfg, After(cfg, Fresh(roles), run + [e]), user, i);
    OldPasswordIsGoneExactlyWhen(cfg, roles, run, i, user);
  }

  // ----- Two old passwords that survive -----

  /** A login looks the old hash up; a change replaces it, and revokes all sessions; the login inserts its session. */
  function OldPasswordRun(): seq<Event> {
    [] + [Register("a@b", "A", "old")] + [LoginLookup(0, 1, "a@b")] + [ChangeLookup(1, 1, 1)]
    + [ChangeUpdate(1, "new")] + [RevokeAll(1)] + [LoginInsert(0, "token", 0)]
  }

  /**
    Two changes look the old hash up; one replaces it, and revokes all sessions; the other
    overwrites it, and logs in.
  */
  function TakeoverRun(): seq<Event> {
    [] + [Register("a@b", "A", "old")] + [ChangeLookup(0, 1, 1)] + [ChangeLookup(1, 1, 1)] + [ChangeUpdate(1, "new")]
    + [RevokeAll(1)] + [ChangeUpdate(0, "taken")] + [LoginLookup(2, 1, "a@b")] + [LoginInsert(2, "token", 0)]
  }

  /**
    The first five steps of either run: the hash is new, and the check with the old one, for
    either purpose, under way.
  */
  lemma ChangedUnderWay(c: Config, purpose: Purpose)
    ensures var e2 := if purpose == SignIn then LoginLookup(0, 1, "a@b") else ChangeLookup(0, 1, 1);
            After(c, Fresh(map[]), [] + [Register("a@b", "A", "old")] + [e2] + [ChangeLookup(1, 1, 1)]
                                   + [ChangeUpdate(1, "new")] + [RevokeAll(1)])
            == OneUser(0, "new", map[], map[], map[0 := PasswordCheck(purpose, 1, 1, 0)],
                       [PasswordSet(1, "old", None), LookedUp(1, "old"), LookedUp(1, "old"),
                        PasswordSet(1, "new", Some(2)), Revoked({})])
  {
    var s0, e1 := Fresh(map[]), Register("a@b", "A", "old");
    var e2 := if purpose == SignIn then LoginLookup(0, 1, "a@b") else ChangeLookup(0, 1, 1);
    var e3, e4, e5 := ChangeLookup(1, 1, 1), ChangeUpdate(1, "new"), RevokeAll(1);
    OneMore(c, s0, [], e1);
    OneMore(c, s0, [] + [e1], e2);
    OneMore(c, s0, [] + [e1] + [e2], e3);
    OneMore(c, s0, [] + [e1] + [e2] + [e3], e4);
    OneMore(c, s0, [] + [e1] + [e2] + [e3] + [e4], e5);
    assert After(c, s0, []) == s0;
    hide After, Step;
    var s1 := Step(c, s0, e1);
    LooksUp(c, 0, s1, "old", purpose);
    var s2 := Step(c, s1, e2);
    LooksUp(c, 1, s2, "old", ChangePassword);
    var s3 := Step(c, s2, e3);
    Updates(c, 1, s3, "old", "new");
    assert s3.checks - {1} == s2.checks;
    Revokes(c, Step(c, s3, e4));
  }

  /** A login that looked up the old hash before the change ends, after all revocations, in a session that validates. */
  lemma OldPasswordLoginOutlivesTheChange(c: Config)
    ensures var s := After(c, Fresh(map[]), OldPasswordRun());
            && 1 in s.db.accounts && s.db.accounts[1].passwordHash == "new"
            && SelectSession(s.db, "token").Some? && !SelectSession(s.db, "token").value.revoked
            && |s.log| == 6 && s.log[1] == LookedUp(1, "old") && s.log[3] == PasswordSet(1, "new", Some(2))
            && s.log[4].Revoked? && s.log[5] == SessionCreated("token", 1, 0, 1)
            && OldPasswordLives(s, 1, 3)
  {
    var s0, e6 := Fresh(map[]), LoginInsert(0, "token", 0);
    var run := [] + [Register("a@b", "A", "old")] + [LoginLookup(0, 1, "a@b")] + [ChangeLookup(1, 1, 1)]
               + [ChangeUpdate(1, "new")] + [RevokeAll(1)];
    ChangedUnderWay(c, SignIn);
    OneMore(c, s0, run, e6);
    hide After, Step;
    var s5 := After(c, s0, run);
    Inserts(c, 0, s5, "new");
    var s6 := Step(c, s5, e6);
    assert GoesBack(s6.log, 1, 3, 1);
    assert IsLiveSession(s6, "token", 1, 5) && GoesBack(s6.log, 1, 3, 5);
  }

  /** From there on, a late change with this hash, and a login with it. */
  lemma ChangeThenLogin(c: Config, s: System)
    requires s == OneUser(0, "new", map[], map[], map[0 := PasswordCheck(ChangePassword, 1, 1, 0)], s.log)
    ensures Step(c, Step(c, Step(c, s, ChangeUpdate(0, "taken")), LoginLookup(2, 1, "a@b")), LoginInsert(2, "token", 0))
            == OneUser(0, "taken", map["token" := NewSession(c, 1, 0)], map[], map[],
                       s.log + [PasswordSet(1, "taken", Some(1))] + [LookedUp(1, "taken")]
                       + [SessionCreated("token", 1, 0, |s.log| + 1)])
  {
    hide Step;
    Updates(c, 0, s, "new", "taken");
    assert s.checks - {0} == map[];
    var s6 := OneUser(0, "taken", map[], map[], map[], s.log + [PasswordSet(1, "taken", Some(1))]);
    LooksUp(c, 2, s6, "taken", SignIn);
    var s7 := OneUser(0, "taken", map[], map[], map[2 := PasswordCheck(SignIn, 1, |s6.log|, 0)],
                      s6.log + [LookedUp(1, "taken")]);
    Inserts(c, 2, s7, "taken");
    assert s7.checks - {2} == map[];
  }

  /** A change that verified the old password ends after another change and its revocations, and its author logs in. */
  lemma LateChangeTakesOver(c: Config)
    ensures var s := After(c, Fresh(map[]), TakeoverRun());
            && 1 in s.db.accounts && s.db.accounts[1].passwordHash == "taken"
            && SelectSession(s.db, "token").Some? && !SelectSession(s.db, "token").value.revoked
            && |s.log| == 8 && s.log[1] == LookedUp(1, "old") && s.log[3] == PasswordSet(1, "new", Some(2))
            && s.log[4].Revoked? && s.log[5] == PasswordSet(1, "taken", Some(1)) && s.log[6] == LookedUp(1, "taken")
            && s.log[7] == SessionCreated("token", 1, 0, 6)
            && StoredGoesBack(s.log, 1, 3) && GoesBack(s.log, 1, 3, 7)
  {
    hide After, Step, GoesBack, StoredGoesBack;
    var s0, e6, e7, e8 := Fresh(map[]), ChangeUpdate(0, "taken"), LoginLookup(2, 1, "a@b"), LoginInsert(2, "token", 0);
    var run := [] + [Register("a@b", "A", "old")] + [ChangeLookup(0, 1, 1)] + [ChangeLookup(1, 1, 1)]
               + [ChangeUpdate(1, "new")] + [RevokeAll(1)];
    ChangedUnderWay(c, ChangePassword);
    OneMore(c, s0, run, e6);
    OneMore(c, s0, run + [e6], e7);
    OneMore(c, s0, run + [e6] + [e7], e8);
    ChangeThenLogin(c, After(c, s0, run));
    TakenOver(After(c, s0, run + [e6] + [e7] + [e8]).log);
  }

  lemma TakenOver(log: seq<Entry>)
    requires |log| == 8 && log[1] == LookedUp(1, "old") && log[5] == PasswordSet(1, "taken", Some(1))
    requires log[6] == LookedUp(1, "taken") && log[7] == SessionCreated("token", 1, 0, 6)
    ensures StoredGoesBack(log, 1, 3) && GoesBack(log, 1, 3, 7)
  {
    assert GoesBack(log, 1, 3, 1);
    assert GoesBack(log, 1, 3, 5);
    assert log[..6][5] == log[5];
    assert GoesBack(log, 1, 3, 6);
  }
}
