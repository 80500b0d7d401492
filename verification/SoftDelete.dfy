/** What a committed deletion of a user means for everything that was under way. */
module SoftDelete {
  import opened Common
  import opened AuthTables
  import opened AuthSystem
  import opened OneUserRuns
  import SessionHistory

  /** Position i of the log says that the user was deleted. */
  predicate DeletedAt(log: seq<Entry>, i: int, user: int) {
    0 <= i < |log| && log[i] == Deleted(user)
  }

  /**
    Deletion is final: after it no query returns the user, whatever was in flight, and
    neither a reused id nor any other step brings the user back.
  */
  lemma DeletedUserIsNeverReturned(cfg: Config, roles: map<string, int>, run: seq<Event>, i: nat, user: int)
    requires DeletedAt(After(cfg, Fresh(roles), run).log, i, user)
    ensures var db := After(cfg, Fresh(roles), run).db;
            && (forall token :: SelectSession(db, token).Some? ==> SelectSession(db, token).value.user != user)
            && (forall account, email :: IsLoginRow(db, account, email) ==> db.accounts[account].linkedUser != user)
            && (forall account :: !IsPasswordRow(db, account, user))
            && RoleNames(db, user) == {}
  {
    SessionHistory.InvHolds(cfg, roles, run);
  }

  lemma LookupsComeBefore(cfg: Config, log: seq<Entry>, i: nat, user: int, n: nat)
    requires DeletedAt(log, i, user) && n < |log| && SessionHistory.EntryOk(cfg, log, n)
    requires log[n].LookedUp? && log[n].user == user
    ensures n < i
  {
  }

  lemma SelectsComeBefore(cfg: Config, log: seq<Entry>, i: nat, user: int, n: nat)
    requires DeletedAt(log, i, user) && n < |log| && SessionHistory.EntryOk(cfg, log, n)
    requires log[n].Validated? && log[n].user == user
    ensures log[n].selected <= i
  {
  }

  /**
    In the log of any run: after the deletion no login looks the user up; an acceptance
    of the user had its SELECT before the deletion; a session of the user comes from a
    login that looked the user up before, and if the session itself is older than the
    deletion, it is revoked.
  */
  lemma OnlyEarlierStepsReachADeletedUser(
    cfg: Config, roles: map<string, int>, run: seq<Event>, i: nat, user: int, n: nat)
    requires DeletedAt(After(cfg, Fresh(roles), run).log, i, user) && n < |After(cfg, Fresh(roles), run).log|
    ensures var s := After(cfg, Fresh(roles), run);
            var e := s.log[n];
            && (e.LookedUp? && e.user == user ==> n < i)
            && (e.Validated? && e.user == user ==> e.selected <= i)
            && (e.SessionCreated? && e.user == user ==> e.lookup < i)
            && (e.SessionCreated? && e.user == user && n < i ==>
                  e.token in s.db.sessions && s.db.sessions[e.token].revoked)
  {
    SessionHistory.InvHolds(cfg, roles, run);
    var s := After(cfg, Fresh(roles), run);
    var e := s.log[n];
    assert SessionHistory.EntryOk(cfg, s.log, n);
    if e.LookedUp? && e.user == user {
      LookupsComeBefore(cfg, s.log, i, user, n);
    } else if e.Validated? && e.user == user {
      SelectsComeBefore(cfg, s.log, i, user, n);
    } else if e.SessionCreated? && e.user == user {
      assert SessionHistory.EntryOk(cfg, s.log, e.lookup);
      LookupsComeBefore(cfg, s.log, i, user, e.lookup);
      OlderSessionsAreRevoked(cfg, s, i, user, n);
    }
  }

  lemma OlderSessionsAreRevoked(cfg: Config, s: System, i: nat, user: int, n: nat)
    requires SessionHistory.LogOk(cfg, s.log) && SessionHistory.EffectsLast(s.db.users, s.db.sessions, s.log)
    requires DeletedAt(s.log, i, user) && n < |s.log| && s.log[n].SessionCreated? && s.log[n].user == user
    ensures n < i ==> s.log[n].token in s.db.sessions && s.db.sessions[s.log[n].token].revoked
  {
    assert SessionHistory.EntryOk(cfg, s.log, i);
    assert s.log[i - 1].Revoked?;
  }

  // ----- A login in flight -----

  function InFlightLogin(): seq<Event> {
    [] + [Register("a@b", "A", "hash")] + [LoginLookup(0, 1, "a@b")] + [Delete(1)] + [LoginInsert(0, "token", 0)]
  }

  lemma DeletesUnderWay(c: Config, s: System)
    requires s == OneUser(0, "hash", map[], map[], s.checks, s.log)
    ensures Step(c, s, Delete(1))
            == s.(db := s.db.(users := map[1 := User("A", true)],
                              accounts := map[1 := Account(1, "a@b", "hash", false)]),
                  log := s.log + [Revoked({})] + [Deleted(1)])
  {
    assert SessionsOf(map[], 1) == {} && RevokeThese(map[], {}) == map[];
    assert Suspend(s.db.accounts, 1) == map[1 := Account(1, "a@b", "hash", false)];
    assert s.log + [Revoked({}), Deleted(1)] == s.log + [Revoked({})] + [Deleted(1)];
  }

  lemma InsertsForDeleted(c: Config, s: System)
    requires s.db.sessions == map[] && s.db.users == map[1 := User("A", true)] && s.clock == 0
    requires 0 in s.checks && s.checks[0].purpose == SignIn && s.checks[0].user == 1 && s.checks[0].clock == 0
    ensures var s' := Step(c, s, LoginInsert(0, "token", 0));
            && s'.db.sessions == map["token" := NewSession(c, 1, 0)] && s'.db.users == s.db.users && s.log <= s'.log
  {
  }

  /**
    A login that looked its user up before the deletion still inserts an unrevoked
    session, which no SELECT returns.
  */
  lemma InFlightLoginStillInserts(c: Config)
    ensures var s := After(c, Fresh(map[]), InFlightLogin());
            && Deleted(1) in s.log
            && "token" in s.db.sessions && s.db.sessions["token"].user == 1 && !s.db.sessions["token"].revoked
            && SelectSession(s.db, "token") == None
  {
    var s0, e1, e2 := Fresh(map[]), Register("a@b", "A", "hash"), LoginLookup(0, 1, "a@b");
    var e3, e4 := Delete(1), LoginInsert(0, "token", 0);
    OneMore(c, s0, [], e1);
    OneMore(c, s0, [] + [e1], e2);
    OneMore(c, s0, [] + [e1] + [e2], e3);
    OneMore(c, s0, [] + [e1] + [e2] + [e3], e4);
    assert After(c, s0, []) == s0;
    hide After, Step;
    Registers(c, "hash");
    var s1 := Step(c, s0, e1);
    LooksUp(c, 0, s1, "hash", SignIn);
    var s2 := Step(c, s1, e2);
    DeletesUnderWay(c, s2);
    var s3 := Step(c, s2, e3);
    InsertsForDeleted(c, s3);
    assert Deleted(1) in s3.log;
  }
}
