/** Where accepted invites come from: who accepted them, when, and with which email and password. */
module InviteHistory {
  import opened Common
  import opened AuthTables
  import opened AuthSystem
  import OperatorInvites

  // ----- The start of an accept -----

  /** Event k of the run starts an accept of this invite, with this email and password hash, at this time. */
  predicate StartedBy(
    cfg: Config, roles: map<string, int>, run: seq<Event>, k: nat, token: string, email: string, hash: string, at: int)
  {
    && k < |run| && run[k].AcceptStart? && run[k].token == token && run[k].email == email && run[k].hash == hash
    && After(cfg, Fresh(roles), run[..k]).clock == at
  }

  ghost predicate Started(
    cfg: Config, roles: map<string, int>, run: seq<Event>, token: string, email: string, hash: string, at: int)
  {
    exists k: nat :: StartedBy(cfg, roles, run, k, token, email, hash, at)
  }

  lemma StartedStays(
    cfg: Config, roles: map<string, int>, run: seq<Event>, token: string, email: string, hash: string, at: int)
    requires |run| > 0 && Started(cfg, roles, run[..|run| - 1], token, email, hash, at)
    ensures Started(cfg, roles, run, token, email, hash, at)
  {
    var before := run[..|run| - 1];
    var k: nat :| StartedBy(cfg, roles, before, k, token, email, hash, at);
    assert run[..k] == before[..k];
    assert StartedBy(cfg, roles, run, k, token, email, hash, at);
  }

  /** The invite was still open at that time, and meant for whoever typed the email. */
  predicate Fits(cfg: Config, invite: Invite, email: string, at: int) {
    at < invite.expires && cfg.sameEmail(invite.email, email)
  }

  // ----- Who waits for whom -----

  /**
    An accept starts exactly if its invite is there, unused and unexpired, meant for the
    email typed, and not locked by another accept of the same invite: accepts of
    different invites run side by side.
  */
  lemma AcceptStartsExactlyWhen(
    cfg: Config, s: System, pid: nat, token: string, email: string, name: string, hash: string)
    requires pid !in s.accepts
    ensures pid in AcceptStartStep(cfg, s, pid, token, email, name, hash).accepts
            <==> && token in s.db.invites && !s.db.invites[token].consumed && s.clock < s.db.invites[token].expires
                 && cfg.sameEmail(s.db.invites[token].email, email)
                 && forall p :: p in s.accepts ==> s.accepts[p].token != token
  {
  }

  /**
    The account's INSERT waits exactly for an uncommitted account with its email or user,
    and fails on a committed one.
  */
  lemma InsertWaitsExactlyWhen(s: System, pid: nat)
    requires pid in s.accepts && s.accepts[pid].phase == Checked
    ensures var t := s.accepts[pid];
            var later := InsertAccount(s, pid, t).accepts;
            if exists p :: && p in s.accepts && s.accepts[p].phase == AccountInserted
                           && (s.accepts[p].invite.email == t.invite.email || s.accepts[p].user == t.user)
            then later == s.accepts
            else if || (exists a :: a in s.db.accounts && (|| s.db.accounts[a].email == t.invite.email
                                                           || s.db.accounts[a].linkedUser == t.user))
                    || (!t.ownUser && t.user !in s.db.users)
            then pid !in later
            else pid in later && later[pid] == t.(phase := AccountInserted, account := s.db.nextAccount)
  {
  }

  // ----- What a step does to accepts, invites and the log -----

  /** An accept goes on with what it began with. */
  predicate SameStart(t: Accept, t': Accept) {
    t'.token == t.token && t'.email == t.email && t'.hash == t.hash && t'.at == t.at && t'.invite == t.invite
  }

  /** The accept that this event starts. */
  predicate IsNew(cfg: Config, s: System, e: Event, t: Accept) {
    && e.AcceptStart? && t.token == e.token && t.email == e.email && t.hash == e.hash && t.at == s.clock
    && e.token in s.db.invites && t.invite == s.db.invites[e.token] && Fits(cfg, t.invite, t.email, t.at)
  }

  ghost predicate AcceptsComeFrom(cfg: Config, s: System, e: Event, s': System) {
    forall p :: p in s'.accepts ==>
      (p in s.accepts && SameStart(s.accepts[p], s'.accepts[p])) || IsNew(cfg, s, e, s'.accepts[p])
  }

  predicate InvitesStay(s: System, s': System) {
    forall t :: t in s.db.invites ==>
      && t in s'.db.invites && s'.db.invites[t].expires == s.db.invites[t].expires
      && s'.db.invites[t].email == s.db.invites[t].email
  }

  /** Entry n of the later log is that of accept p. */
  predicate IsCommit(s: System, s': System, n: int, p: nat) {
    && p in s.accepts && 0 <= n && |s'.log| == n + 2 && s'.log[n].InviteAccepted?
    && var t := s.accepts[p];
       && s'.log[n].invite == t.token && s'.log[n].email == t.email && s'.log[n].at == t.at
       && s'.log[n + 1] == PasswordSet(s'.log[n].user, t.hash, None)
  }

  ghost predicate CommitsComeFrom(s: System, s': System) {
    && s.log <= s'.log
    && forall n :: |s.log| <= n < |s'.log| && s'.log[n].InviteAccepted? ==> exists p :: IsCommit(s, s', n, p)
  }

  lemma PhasesFollow(cfg: Config, s: System, e: Event, pid: nat)
    requires pid in s.accepts
    ensures var t := s.accepts[pid];
            && AcceptsComeFrom(cfg, s, e, ReadRole(s, pid, t)) && AcceptsComeFrom(cfg, s, e, PrepareUser(s, pid, t))
            && AcceptsComeFrom(cfg, s, e, CheckConflict(s, pid, t))
            && AcceptsComeFrom(cfg, s, e, InsertAccount(s, pid, t))
  {
    hide Taken, Reserved, AcceptsComeFrom;
    var t := s.accepts[pid];
    GoesOnOrEnds(cfg, s, e, pid, ReadRole(s, pid, t));
    GoesOnOrEnds(cfg, s, e, pid, PrepareUser(s, pid, t));
    GoesOnOrEnds(cfg, s, e, pid, CheckConflict(s, pid, t));
    GoesOnOrEnds(cfg, s, e, pid, InsertAccount(s, pid, t));
  }

  /** A transaction that goes on keeps its start. */
  lemma GoesOnOrEnds(cfg: Config, s: System, e: Event, pid: nat, s': System)
    requires pid in s.accepts
    requires || s'.accepts == s.accepts || s'.accepts == s.accepts - {pid}
             || (pid in s'.accepts && SameStart(s.accepts[pid], s'.accepts[pid])
                 && s'.accepts == s.accepts[pid := s'.accepts[pid]])
    ensures AcceptsComeFrom(cfg, s, e, s')
  {
    hide IsNew;
  }

  lemma PhasesLeaveInvites(s: System, pid: nat, t: Accept)
    ensures InvitesStay(s, ReadRole(s, pid, t)) && InvitesStay(s, PrepareUser(s, pid, t))
    ensures InvitesStay(s, CheckConflict(s, pid, t)) && InvitesStay(s, InsertAccount(s, pid, t))
  {
    hide Taken, Reserved;
  }

  lemma CommitFollows(cfg: Config, s: System, e: Event, pid: nat)
    requires pid in s.accepts && s.accepts[pid].token in s.db.invites
    ensures var s' := Commit(s, pid, s.accepts[pid]);
            AcceptsComeFrom(cfg, s, e, s') && InvitesStay(s, s') && CommitsComeFrom(s, s')
  {
    var s' := Commit(s, pid, s.accepts[pid]);
    assert IsCommit(s, s', |s.log|, pid);
  }

  lemma NothingFollows(cfg: Config, s: System, e: Event)
    ensures AcceptsComeFrom(cfg, s, e, s) && InvitesStay(s, s) && CommitsComeFrom(s, s)
  {
    hide IsNew, IsCommit;
  }

  lemma NextFollows(cfg: Config, s: System, e: Event, pid: nat)
    ensures var s' := AcceptNextStep(s, pid);
            AcceptsComeFrom(cfg, s, e, s') && InvitesStay(s, s') && CommitsComeFrom(s, s')
  {
    hide AcceptsComeFrom, InvitesStay, CommitsComeFrom, ReadRole, PrepareUser, CheckConflict, InsertAccount, Commit;
    NothingFollows(cfg, s, e);
    if pid in s.accepts && s.accepts[pid].token in s.db.invites {
      var t := s.accepts[pid];
      PhasesFollow(cfg, s, e, pid);
      PhasesLeaveInvites(s, pid, t);
      PhasesCommitNothing(s, pid, t);
      CommitFollows(cfg, s, e, pid);
    }
  }

  lemma PhasesCommitNothing(s: System, pid: nat, t: Accept)
    ensures CommitsComeFrom(s, ReadRole(s, pid, t)) && CommitsComeFrom(s, PrepareUser(s, pid, t))
    ensures CommitsComeFrom(s, CheckConflict(s, pid, t)) && CommitsComeFrom(s, InsertAccount(s, pid, t))
  {
    OperatorInvites.AcceptPhasesLeaveNoTrace(s, pid, t);
    hide ReadRole, PrepareUser, CheckConflict, InsertAccount, IsCommit;
  }

  lemma StartFollows(cfg: Config, s: System, e: Event)
    requires e.AcceptStart?
    ensures AcceptsComeFrom(cfg, s, e, Step(cfg, s, e))
    ensures InvitesStay(s, Step(cfg, s, e)) && CommitsComeFrom(s, Step(cfg, s, e))
  {
    hide DisplayName;
  }

  lemma OthersLeaveInvites(cfg: Config, s: System, e: Event)
    requires !e.AcceptStart? && !e.AcceptNext?
    ensures var s' := Step(cfg, s, e);
            (s'.accepts == s.accepts || (e.AcceptAbort? && s'.accepts == s.accepts - {e.pid})) && InvitesStay(s, s')
  {
    hide AcceptNextStep, Taken, Reserved, IsLoginRow, IsPasswordRow, NewSession, Slide, SetHash, Suspend;
    hide UpdateExpiry, RevokeThese, SessionsOf, SelectSession, HasAccount;
  }

  lemma OthersFollow(cfg: Config, s: System, e: Event)
    requires !e.AcceptStart? && !e.AcceptNext?
    ensures AcceptsComeFrom(cfg, s, e, Step(cfg, s, e))
    ensures InvitesStay(s, Step(cfg, s, e)) && CommitsComeFrom(s, Step(cfg, s, e))
  {
    OthersLeaveInvites(cfg, s, e);
    hide Step, InvitesStay, IsNew, IsCommit;
  }

  lemma StepFollows(cfg: Config, s: System, e: Event)
    ensures AcceptsComeFrom(cfg, s, e, Step(cfg, s, e))
    ensures InvitesStay(s, Step(cfg, s, e)) && CommitsComeFrom(s, Step(cfg, s, e))
  {
    hide AcceptsComeFrom, InvitesStay, CommitsComeFrom, AcceptNextStep;
    if e.AcceptStart? {
      StartFollows(cfg, s, e);
    } else if e.AcceptNext? {
      NextFollows(cfg, s, e, e.pid);
    } else {
      OthersFollow(cfg, s, e);
    }
  }

  // ----- Over every run -----

  ghost predicate AcceptsOk(cfg: Config, roles: map<string, int>, run: seq<Event>, s: System) {
    forall p :: p in s.accepts ==>
      var t := s.accepts[p];
      Fits(cfg, t.invite, t.email, t.at) && Started(cfg, roles, run, t.token, t.email, t.hash, t.at)
  }

  /** Entry n goes back to the start of an accept, and is followed by the password typed there. */
  ghost predicate EntryOk(cfg: Config, roles: map<string, int>, run: seq<Event>, s: System, n: int)
    requires 0 <= n < |s.log| && s.log[n].InviteAccepted?
  {
    var e := s.log[n];
    && e.invite in s.db.invites && Fits(cfg, s.db.invites[e.invite], e.email, e.at)
    && n + 1 < |s.log| && s.log[n + 1].PasswordSet? && s.log[n + 1].user == e.user
    && Started(cfg, roles, run, e.invite, e.email, s.log[n + 1].hash, e.at)
  }

  ghost predicate LogOk(cfg: Config, roles: map<string, int>, run: seq<Event>, s: System) {
    forall n :: 0 <= n < |s.log| && s.log[n].InviteAccepted? ==> EntryOk(cfg, roles, run, s, n)
  }

  lemma AcceptsStayOk(cfg: Config, roles: map<string, int>, run: seq<Event>, s: System, s': System)
    requires |run| > 0 && s == After(cfg, Fresh(roles), run[..|run| - 1])
    requires AcceptsOk(cfg, roles, run[..|run| - 1], s) && AcceptsComeFrom(cfg, s, run[|run| - 1], s')
    ensures AcceptsOk(cfg, roles, run, s')
  {
    hide After, Fits;
    var e := run[|run| - 1];
    forall p | p in s'.accepts
      ensures var t := s'.accepts[p];
              Fits(cfg, t.invite, t.email, t.at) && Started(cfg, roles, run, t.token, t.email, t.hash, t.at)
    {
      var t := s'.accepts[p];
      if p in s.accepts && SameStart(s.accepts[p], t) {
        StartedStays(cfg, roles, run, t.token, t.email, t.hash, t.at);
      } else {
        assert StartedBy(cfg, roles, run, |run| - 1, t.token, t.email, t.hash, t.at);
      }
    }
  }

  lemma LogStaysOk(cfg: Config, roles: map<string, int>, run: seq<Event>, s: System, s': System)
    requires |run| > 0 && LogOk(cfg, roles, run[..|run| - 1], s) && AcceptsOk(cfg, roles, run[..|run| - 1], s)
    requires CommitsComeFrom(s, s') && InvitesStay(s, s')
    requires OperatorInvites.LocksOk(s.accepts, s.db.invites, s.db.roles)
    ensures LogOk(cfg, roles, run, s')
  {
    forall n | 0 <= n < |s'.log| && s'.log[n].InviteAccepted? ensures EntryOk(cfg, roles, run, s', n) {
      if n < |s.log| {
        assert EntryOk(cfg, roles, run[..|run| - 1], s, n);
        var e := s.log[n];
        StartedStays(cfg, roles, run, e.invite, e.email, s.log[n + 1].hash, e.at);
        assert s'.log[n] == e && s'.log[n + 1] == s.log[n + 1];
      } else {
        var p :| IsCommit(s, s', n, p);
        var t := s.accepts[p];
        StartedStays(cfg, roles, run, t.token, t.email, t.hash, t.at);
      }
    }
  }

  lemma {:induction false} InvHolds(cfg: Config, roles: map<string, int>, run: seq<Event>)
    ensures AcceptsOk(cfg, roles, run, After(cfg, Fresh(roles), run))
    ensures LogOk(cfg, roles, run, After(cfg, Fresh(roles), run))
  {
    if |run| > 0 {
      hide Step, AcceptsOk, LogOk, AcceptsComeFrom, CommitsComeFrom, InvitesStay, OperatorInvites.LocksOk;
      var before := run[..|run| - 1];
      var s := After(cfg, Fresh(roles), before);
      InvHolds(cfg, roles, before);
      OperatorInvites.InvHolds(cfg, roles, before);
      StepFollows(cfg, s, run[|run| - 1]);
      AcceptsStayOk(cfg, roles, run, s, Step(cfg, s, run[|run| - 1]));
      LogStaysOk(cfg, roles, run, s, Step(cfg, s, run[|run| - 1]));
    }
  }

  /**
    In every run each accepted invite goes back to an event that started its accept: at a
    time before the invite's expiry, and with an email that is the same as the invite's.
    The account got the password hash of that event.
  */
  lemma AcceptedInTimeByTheInvited(cfg: Config, roles: map<string, int>, run: seq<Event>, n: nat)
    requires n < |After(cfg, Fresh(roles), run).log| && After(cfg, Fresh(roles), run).log[n].InviteAccepted?
    ensures var s := After(cfg, Fresh(roles), run);
            var e := s.log[n];
            && e.invite in s.db.invites && n + 1 < |s.log| && s.log[n + 1].PasswordSet? && s.log[n + 1].user == e.user
            && exists k: nat ::
                 && k < |run| && run[k].AcceptStart? && run[k].token == e.invite && run[k].email == e.email
                 && run[k].hash == s.log[n + 1].hash && After(cfg, Fresh(roles), run[..k]).clock == e.at
                 && e.at < s.db.invites[e.invite].expires
                 && cfg.sameEmail(s.db.invites[e.invite].email, run[k].email)
  {
    InvHolds(cfg, roles, run);
    hide After;
    var s := After(cfg, Fresh(roles), run);
    assert EntryOk(cfg, roles, run, s, n);
    var e := s.log[n];
    var k: nat :| StartedBy(cfg, roles, run, k, e.invite, e.email, s.log[n + 1].hash, e.at);
  }
}
