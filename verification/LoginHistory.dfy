/** Where sessions and changed passwords come from: which event looked up which account, and under which email. */
module LoginHistory {
  import opened Common
  import opened AuthTables
  import opened AuthSystem
  import PasswordChange

  /**
    The event looks an account up that is active and of a live user: for a login by the
    email typed, for a password change by the user who is signed in.
  */
  predicate LooksUp(s: System, e: Event, purpose: Purpose, user: int) {
    && (e.LoginLookup? || e.ChangeLookup?)
    && e.account in s.db.accounts && s.db.accounts[e.account].active && s.db.accounts[e.account].linkedUser == user
    && user in s.db.users && !s.db.users[user].deleted
    && match purpose
       case SignIn => e.LoginLookup? && s.db.accounts[e.account].email == e.email
       case ChangePassword => e.ChangeLookup? && e.user == user
  }

  /** Event j of the run does that, as entry n of the log, and reads this hash. */
  predicate LookupAt(
    cfg: Config, roles: map<string, int>, run: seq<Event>, j: nat, n: nat, purpose: Purpose, user: int, hash: string)
  {
    && j < |run|
    && var s := After(cfg, Fresh(roles), run[..j]);
       |s.log| == n && LooksUp(s, run[j], purpose, user) && s.db.accounts[run[j].account].passwordHash == hash
  }

  ghost predicate HasLookup(
    cfg: Config, roles: map<string, int>, run: seq<Event>, s: System, n: nat, purpose: Purpose, user: int)
  {
    && n < |s.log| && s.log[n].LookedUp?
    && exists j: nat :: LookupAt(cfg, roles, run, j, n, purpose, user, s.log[n].hash)
  }

  ghost predicate ChecksKnown(cfg: Config, roles: map<string, int>, run: seq<Event>, s: System) {
    forall p :: p in s.checks ==>
      HasLookup(cfg, roles, run, s, s.checks[p].lookup, s.checks[p].purpose, s.checks[p].user)
  }

  ghost predicate EntryKnown(cfg: Config, roles: map<string, int>, run: seq<Event>, s: System, n: int)
    requires 0 <= n < |s.log|
  {
    match s.log[n]
    case SessionCreated(_, user, _, lookup) => HasLookup(cfg, roles, run, s, lookup, SignIn, user)
    case PasswordSet(user, _, Some(lookup)) => HasLookup(cfg, roles, run, s, lookup, ChangePassword, user)
    case _ => true
  }

  ghost predicate LogKnown(cfg: Config, roles: map<string, int>, run: seq<Event>, s: System) {
    forall n :: 0 <= n < |s.log| ==> EntryKnown(cfg, roles, run, s, n)
  }

  lemma LookupStays(
    cfg: Config, roles: map<string, int>, run: seq<Event>, s: System, s': System, n: nat, purpose: Purpose, user: int)
    requires |run| > 0 && HasLookup(cfg, roles, run[..|run| - 1], s, n, purpose, user) && s.log <= s'.log
    ensures HasLookup(cfg, roles, run, s', n, purpose, user)
  {
    var before := run[..|run| - 1];
    var j: nat :| LookupAt(cfg, roles, before, j, n, purpose, user, s.log[n].hash);
    assert run[..j] == before[..j];
    assert LookupAt(cfg, roles, run, j, n, purpose, user, s.log[n].hash);
  }

  /** A check that was not there before this event begins with it. */
  lemma NewCheck(cfg: Config, s: System, e: Event, p: nat)
    requires p in Step(cfg, s, e).checks && !(p in s.checks && Step(cfg, s, e).checks[p] == s.checks[p])
    ensures var s' := Step(cfg, s, e);
            var c := s'.checks[p];
            && LooksUp(s, e, c.purpose, c.user) && c.lookup == |s.log| < |s'.log|
            && s'.log[|s.log|] == LookedUp(c.user, s.db.accounts[e.account].passwordHash)
  {
    hide Taken, Reserved, DisplayName, NewSession, DeleteUser, UpdateHash, SelectSession, UpdateExpiry, RevokeThese;
  }

  lemma ChecksStayKnown(cfg: Config, roles: map<string, int>, run: seq<Event>, s: System, s': System)
    requires |run| > 0 && s == After(cfg, Fresh(roles), run[..|run| - 1]) && s' == Step(cfg, s, run[|run| - 1])
    requires ChecksKnown(cfg, roles, run[..|run| - 1], s)
    ensures ChecksKnown(cfg, roles, run, s')
  {
    var last: nat := |run| - 1;
    PasswordChange.StepsOnlyAddToTheLog(cfg, s, run[last]);
    hide After, Step, LooksUp;
    forall p | p in s'.checks
      ensures HasLookup(cfg, roles, run, s', s'.checks[p].lookup, s'.checks[p].purpose, s'.checks[p].user)
    {
      var c := s'.checks[p];
      if p in s.checks && c == s.checks[p] {
        LookupStays(cfg, roles, run, s, s', c.lookup, c.purpose, c.user);
      } else {
        NewCheck(cfg, s, run[last], p);
        assert LookupAt(cfg, roles, run, last, c.lookup, c.purpose, c.user, s'.log[c.lookup].hash);
      }
    }
  }

  lemma LogStaysKnown(cfg: Config, roles: map<string, int>, run: seq<Event>, s: System, s': System)
    requires |run| > 0 && PasswordChange.EntriesFollow(s, s')
    requires LogKnown(cfg, roles, run[..|run| - 1], s) && ChecksKnown(cfg, roles, run[..|run| - 1], s)
    ensures LogKnown(cfg, roles, run, s')
  {
    hide HasLookup;
    forall n: nat | n < |s'.log| ensures EntryKnown(cfg, roles, run, s', n) {
      if n < |s.log| {
        assert s'.log[n] == s.log[n] && EntryKnown(cfg, roles, run[..|run| - 1], s, n);
        OldEntryStaysKnown(cfg, roles, run, s, s', n);
      } else {
        NewEntryIsKnown(cfg, roles, run, s, s', n);
      }
    }
  }

  lemma OldEntryStaysKnown(cfg: Config, roles: map<string, int>, run: seq<Event>, s: System, s': System, n: nat)
    requires |run| > 0 && s.log <= s'.log && n < |s.log| && EntryKnown(cfg, roles, run[..|run| - 1], s, n)
    ensures EntryKnown(cfg, roles, run, s', n)
  {
    match s.log[n]
    case SessionCreated(_, user, _, lookup) => LookupStays(cfg, roles, run, s, s', lookup, SignIn, user);
    case PasswordSet(user, _, Some(lookup)) => LookupStays(cfg, roles, run, s, s', lookup, ChangePassword, user);
    case _ =>
  }

  lemma NewEntryIsKnown(cfg: Config, roles: map<string, int>, run: seq<Event>, s: System, s': System, n: nat)
    requires |run| > 0 && PasswordChange.EntriesFollow(s, s') && |s.log| <= n < |s'.log|
    requires ChecksKnown(cfg, roles, run[..|run| - 1], s)
    ensures EntryKnown(cfg, roles, run, s', n)
  {
    match s'.log[n]
    case SessionCreated(_, user, _, lookup) =>
      var p :| PasswordChange.FromCheck(s, p, SignIn, user, lookup);
      LookupStays(cfg, roles, run, s, s', lookup, SignIn, user);
    case PasswordSet(user, _, Some(lookup)) =>
      var p :| PasswordChange.FromCheck(s, p, ChangePassword, user, lookup);
      LookupStays(cfg, roles, run, s, s', lookup, ChangePassword, user);
    case _ =>
  }

  lemma {:induction false} InvHolds(cfg: Config, roles: map<string, int>, run: seq<Event>)
    ensures var s := After(cfg, Fresh(roles), run);
            ChecksKnown(cfg, roles, run, s) && LogKnown(cfg, roles, run, s)
  {
    if |run| > 0 {
      hide Step, ChecksKnown, LogKnown;
      var s := After(cfg, Fresh(roles), run[..|run| - 1]);
      InvHolds(cfg, roles, run[..|run| - 1]);
      PasswordChange.StepsFollow(cfg, s, run[|run| - 1]);
      ChecksStayKnown(cfg, roles, run, s, Step(cfg, s, run[|run| - 1]));
      LogStaysKnown(cfg, roles, run, s, Step(cfg, s, run[|run| - 1]));
    } else {
      assert After(cfg, Fresh(roles), run).checks == map[] && After(cfg, Fresh(roles), run).log == [];
    }
  }

  /**
    In every run a session is of the user whose active account was found under the email
    that some login typed, while the user was live; the hash that was verified is the one
    that this account had then.
  */
  lemma SessionsAreForTheEmailTyped(cfg: Config, roles: map<string, int>, run: seq<Event>, n: nat) returns (j: nat)
    requires n < |After(cfg, Fresh(roles), run).log| && After(cfg, Fresh(roles), run).log[n].SessionCreated?
    ensures j < |run| && run[j].LoginLookup?
    ensures var log, prior := After(cfg, Fresh(roles), run).log, After(cfg, Fresh(roles), run[..j]);
            && run[j].account in prior.db.accounts
            && var a := prior.db.accounts[run[j].account];
               && a.email == run[j].email && a.active && a.linkedUser == log[n].user
               && a.linkedUser in prior.db.users && !prior.db.users[a.linkedUser].deleted
               && log[n].lookup == |prior.log| < |log| && log[|prior.log|] == LookedUp(a.linkedUser, a.passwordHash)
  {
    InvHolds(cfg, roles, run);
    PasswordChange.SessionsUseTheCurrentPassword(cfg, roles, run, n);
    var s := After(cfg, Fresh(roles), run);
    hide After;
    assert EntryKnown(cfg, roles, run, s, n);
    j :| LookupAt(cfg, roles, run, j, s.log[n].lookup, SignIn, s.log[n].user, s.log[s.log[n].lookup].hash);
  }

  /** In every run a changed password is that of the signed-in user whose active account the change had read. */
  lemma ChangesAreForTheSignedIn(cfg: Config, roles: map<string, int>, run: seq<Event>, n: nat) returns (j: nat)
    requires n < |After(cfg, Fresh(roles), run).log| && After(cfg, Fresh(roles), run).log[n].PasswordSet?
    requires After(cfg, Fresh(roles), run).log[n].verified.Some?
    ensures j < |run| && run[j].ChangeLookup?
    ensures var log, prior := After(cfg, Fresh(roles), run).log, After(cfg, Fresh(roles), run[..j]);
            && run[j].account in prior.db.accounts && run[j].user == log[n].user
            && var a := prior.db.accounts[run[j].account];
               && a.active && a.linkedUser == log[n].user
               && a.linkedUser in prior.db.users && !prior.db.users[a.linkedUser].deleted
               && log[n].verified == Some(|prior.log|) && |prior.log| < |log|
               && log[|prior.log|] == LookedUp(a.linkedUser, a.passwordHash)
  {
    InvHolds(cfg, roles, run);
    PasswordChange.ChangesVerifyTheCurrentPassword(cfg, roles, run, n);
    var s := After(cfg, Fresh(roles), run);
    hide After;
    assert EntryKnown(cfg, roles, run, s, n);
    var k := s.log[n].verified.value;
    j :| LookupAt(cfg, roles, run, j, k, ChangePassword, s.log[n].user, s.log[k].hash);
  }
}
